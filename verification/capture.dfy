/** The frame-capture loop of main.cpp as a step function over an immutable
    session, driven by a scripted sequence of device polls. Every call of the
    frame-buffer poll, header-only or full, consumes one script entry. */
module Capture {
  import opened Matrices
  import opened Device
  import opened Layout

  /** The loop stops once the image buffer holds this many frames. */
  const Target: nat := 100

  const NoCameraMessage: string := "No Tracked Camera Found"

  /** Capturing: the loop runs. Done: it left through the size check.
      Failed: `main` returned the code. */
  datatype Status = Capturing | Done | Failed(code: int)

  /** The loop's state: last accepted sequence number, the image and pose
      buffers, where the loop is, and the diagnostic lines printed so far. */
  datatype Session = Session(
    lastSequence: nat,
    images: seq<Image>,
    poses: seq<Pose>,
    status: Status,
    log: seq<string>)

  /** What happens to a frame whose pose is invalid or not tracked. The
      program skips it (SkipInvalid); ZeroInvalid stores a zero matrix in its
      place so that pose i always belongs to image i. */
  datatype PosePolicy = SkipInvalid | ZeroInvalid

  /** An accepted frame: the sequence number the header-only poll saw, and
      the header and pixels the full poll delivered. */
  datatype Acceptance = Acceptance(probe: nat, header: FrameHeader, image: Image)

  /** What one loop iteration did. Starved: the script ran out while the
      iteration waited for the device. */
  datatype Event = Stopped | Failure | Discard | Accepted(a: Acceptance) | Starved

  datatype StepResult = StepResult(session: Session, rest: seq<Poll>, event: Event)

  /** The session right before the loop: sequence 0, empty buffers, and the
      diagnostic the layout test printed during setup. */
  function Start(layout: Inferred): (s: Session)
    ensures s.status.Capturing? && s.lastSequence == 0
    ensures s.images == [] && s.poses == []
    ensures layout.Ok? <==> s.log == []
  {
    Session(0, [], [], Capturing, LayoutMessages(layout))
  }

  /** One entry of the pose buffer: a 3x4 device-to-tracking transform. */
  datatype Pose = Pose(matrix: Mat34)

  /** The pose that belongs to a frame: its transform when tracking is good,
      the zero matrix otherwise. */
  function PairedPose(h: FrameHeader): Pose {
    if GoodPose(h) then Pose(h.deviceToAbsolute) else Pose(Zero34())
  }

  /** The poses a frame with header `h` adds to the pose buffer. */
  function PoseEntry(policy: PosePolicy, h: FrameHeader): seq<Pose> {
    if GoodPose(h) || policy.ZeroInvalid? then [PairedPose(h)] else []
  }

  /** Appending an accepted frame to the buffers. */
  function Admit(s: Session, a: Acceptance, policy: PosePolicy): Session {
    s.(lastSequence := a.header.sequence,
       images := s.images + [a.image],
       poses := s.poses + PoseEntry(policy, a.header))
  }

  function AcceptedBy(e: Event): seq<Acceptance> {
    if e.Accepted? then [e.a] else []
  }

  /** One pass of the `while (true)` body. */
  function Iterate(s: Session, layout: Inferred, policy: PosePolicy, script: seq<Poll>): (r: StepResult)
    requires s.status.Capturing?
    ensures |r.rest| <= |script| && r.rest == script[|script| - |r.rest|..]
    ensures |r.rest| == |script| ==> r.event.Stopped? || (r.event.Starved? && script == [])
    ensures r.session.status.Capturing? <==> !(r.event.Stopped? || r.event.Failure?)
    // the size check comes first and is the only way out that is not an error
    ensures r.event.Stopped? <==> |s.images| == Target
    ensures r.event.Stopped? ==> r.session == s.(status := Done)
    // a repeated sequence number changes nothing
    ensures r.event.Discard? <==>
      |s.images| != Target && |script| > 0 && script[0].Answer? &&
      script[0].header.sequence == s.lastSequence
    ensures r.event.Discard? ==> r.session == s && r.rest == script[1..]
    // a failed poll ends the run with status 1 and stores nothing
    ensures r.event.Failure? ==>
      r.session == s.(status := Failed(1), log := r.session.log) &&
      |r.session.log| > 0 && r.session.log[|r.session.log| - 1] == NoCameraMessage
    ensures r.event.Failure? <==>
      |s.images| != Target && |script| > 0 &&
      (script[0].CameraError? ||
       (script[0].header.sequence != s.lastSequence && |script| > 1 && script[1].CameraError?))
    // an accepted frame: new header-only sequence, then a full poll
    ensures r.event.Accepted? <==>
      |s.images| != Target && |script| > 1 && script[0].Answer? && script[1].Answer? &&
      script[0].header.sequence != s.lastSequence
    ensures r.event.Accepted? ==>
      var a := r.event.a;
      && |s.images| != Target
      && |script| >= 2 && script[0].Answer? && script[0].header.sequence == a.probe
      && a.probe != s.lastSequence
      && script[1] == Answer(a.header, a.image)
      && r.rest == script[2..]
      && r.session == Admit(s, a, policy).(log := s.log + LayoutMessages(layout))
    ensures r.event.Starved? ==> r.rest == [] && r.session == s.(log := r.session.log)
    ensures Extends(policy, s, r.session, AcceptedBy(r.event))
  {
    if |s.images| == Target then StepResult(s.(status := Done), script, Stopped)
    else if |script| == 0 then StepResult(s, script, Starved)
    else match script[0]
      case CameraError =>
        StepResult(s.(status := Failed(1), log := s.log + [NoCameraMessage]), script[1..], Failure)
      case Answer(probe, _) =>
        if probe.sequence == s.lastSequence then StepResult(s, script[1..], Discard)
        else
          var log := s.log + LayoutMessages(layout);
          if |script| == 1 then StepResult(s.(log := log), script[1..], Starved)
          else match script[1]
            case CameraError =>
              StepResult(s.(status := Failed(1), log := log + [NoCameraMessage]), script[2..], Failure)
            case Answer(h, img) =>
              var a := Acceptance(probe.sequence, h, img);
              StepResult(Admit(s, a, policy).(log := log), script[2..], Accepted(a))
  }

  /** The session the loop ends in, and the frames it accepted on the way. */
  datatype Trace = Trace(final: Session, accepted: seq<Acceptance>)

  function ImagesOf(acc: seq<Acceptance>): (images: seq<Image>)
    ensures |images| == |acc|
    ensures forall i | 0 <= i < |acc| :: images[i] == acc[i].image
  {
    if acc == [] then [] else [acc[0].image] + ImagesOf(acc[1..])
  }

  /** The pose buffer entries a run of accepted frames contributes. */
  function PosesOf(policy: PosePolicy, acc: seq<Acceptance>): (poses: seq<Pose>)
    ensures |poses| <= |acc|
  {
    if acc == [] then [] else PoseEntry(policy, acc[0].header) + PosesOf(policy, acc[1..])
  }

  /** Pose i belongs to frame i when invalid poses are padded, or when every
      frame's pose was good. */
  lemma {:induction false} PosesOfPaired(policy: PosePolicy, acc: seq<Acceptance>)
    requires policy.ZeroInvalid? || forall i | 0 <= i < |acc| :: GoodPose(acc[i].header)
    ensures |PosesOf(policy, acc)| == |acc|
    ensures forall i | 0 <= i < |acc| :: PosesOf(policy, acc)[i] == PairedPose(acc[i].header)
    decreases |acc|
  {
    if acc != [] {
      PosesOfPaired(policy, acc[1..]);
    }
  }

  /** Skipping invalid poses keeps one pose per frame exactly when every
      frame's pose was good. */
  lemma {:induction false} SkippedPosesShorten(acc: seq<Acceptance>)
    ensures |PosesOf(SkipInvalid, acc)| == |acc| <==> forall i | 0 <= i < |acc| :: GoodPose(acc[i].header)
    decreases |acc|
  {
    if acc != [] {
      SkippedPosesShorten(acc[1..]);
      if GoodPose(acc[0].header) {
        assert forall i | 1 <= i < |acc| :: acc[i] == acc[1..][i - 1];
      }
    }
  }

  /** The sequence number the loop remembers after accepting `acc`. */
  function LastSequence(initial: nat, acc: seq<Acceptance>): nat {
    if acc == [] then initial else acc[|acc| - 1].header.sequence
  }

  /** Every accepted frame's header-only sequence differs from the sequence
      the previous full poll stored (or from `initial` for the first). */
  ghost predicate Gated(initial: nat, acc: seq<Acceptance>) {
    && (|acc| > 0 ==> acc[0].probe != initial)
    && forall k | 0 < k < |acc| :: acc[k].probe != acc[k - 1].header.sequence
  }


  lemma {:induction false} ImagesOfConcat(x: seq<Acceptance>, y: seq<Acceptance>)
    ensures ImagesOf(x + y) == ImagesOf(x) + ImagesOf(y)
    decreases |x|
  {
    if x != [] {
      assert (x + y)[1..] == x[1..] + y;
      ImagesOfConcat(x[1..], y);
    }
  }

  lemma {:induction false} PosesOfConcat(policy: PosePolicy, x: seq<Acceptance>, y: seq<Acceptance>)
    ensures PosesOf(policy, x + y) == PosesOf(policy, x) + PosesOf(policy, y)
    decreases |x|
  {
    if x != [] {
      assert (x + y)[1..] == x[1..] + y;
      assert (x + y)[0] == x[0];
      PosesOfConcat(policy, x[1..], y);
      AppendAssociative(PoseEntry(policy, x[0].header), PosesOf(policy, x[1..]), PosesOf(policy, y));
    } else {
      assert x + y == y;
    }
  }

  /** `later` is `earlier` after the frames `acc` were appended: their images
      and the poses the policy keeps are added in order, and the remembered
      sequence number is the last one stored. */
  ghost predicate Extends(policy: PosePolicy, earlier: Session, later: Session, acc: seq<Acceptance>) {
    && later.images == earlier.images + ImagesOf(acc)
    && later.poses == earlier.poses + PosesOf(policy, acc)
    && later.lastSequence == LastSequence(earlier.lastSequence, acc)
  }

  lemma LastSequenceConcat(initial: nat, x: seq<Acceptance>, y: seq<Acceptance>)
    ensures LastSequence(initial, x + y) == LastSequence(LastSequence(initial, x), y)
  {
    if y == [] {
      assert x + y == x;
    } else {
      assert (x + y)[|x + y| - 1] == y[|y| - 1];
    }
  }

  lemma AppendAssociative<T>(a: seq<T>, b: seq<T>, c: seq<T>)
    ensures (a + b) + c == a + (b + c)
  {
  }

  lemma ImagesChain(a: seq<Image>, b: seq<Image>, c: seq<Image>, x: seq<Acceptance>, y: seq<Acceptance>)
    requires b == a + ImagesOf(x) && c == b + ImagesOf(y)
    ensures c == a + ImagesOf(x + y)
  {
    ImagesOfConcat(x, y);
    AppendAssociative(a, ImagesOf(x), ImagesOf(y));
  }

  lemma PosesChain(policy: PosePolicy, a: seq<Pose>, b: seq<Pose>, c: seq<Pose>,
                   x: seq<Acceptance>, y: seq<Acceptance>)
    requires b == a + PosesOf(policy, x) && c == b + PosesOf(policy, y)
    ensures c == a + PosesOf(policy, x + y)
  {
    PosesOfConcat(policy, x, y);
    AppendAssociative(a, PosesOf(policy, x), PosesOf(policy, y));
  }

  lemma ExtendsTransitive(policy: PosePolicy, s0: Session, s1: Session, s2: Session,
                          x: seq<Acceptance>, y: seq<Acceptance>)
    requires Extends(policy, s0, s1, x) && Extends(policy, s1, s2, y)
    ensures Extends(policy, s0, s2, x + y)
  {
    LastSequenceConcat(s0.lastSequence, x, y);
    ImagesChain(s0.images, s1.images, s2.images, x, y);
    PosesChain(policy, s0.poses, s1.poses, s2.poses, x, y);
  }

  lemma GatedPrepend(initial: nat, a: Acceptance, acc: seq<Acceptance>)
    requires a.probe != initial && Gated(a.header.sequence, acc)
    ensures Gated(initial, [a] + acc)
  {
    var all := [a] + acc;
    forall k | 0 < k < |all|
      ensures all[k].probe != all[k - 1].header.sequence
    {
      assert all[k] == acc[k - 1];
      if k > 1 {
        assert all[k - 1] == acc[k - 2];
      }
    }
  }

  /** The loop run until it stops, fails, or the script runs out. */
  function Run(s: Session, layout: Inferred, policy: PosePolicy, script: seq<Poll>): (t: Trace)
    ensures !s.status.Capturing? ==> t == Trace(s, [])
    ensures Extends(policy, s, t.final, t.accepted)
    decreases |script|, if s.status.Capturing? then 1 else 0
  {
    if !s.status.Capturing? then Trace(s, [])
    else
      var r := Iterate(s, layout, policy, script);
      if r.event.Starved? then Trace(r.session, [])
      else
        var t := Run(r.session, layout, policy, r.rest);
        ExtendsTransitive(policy, s, r.session, t.final, AcceptedBy(r.event), t.accepted);
        Trace(t.final, AcceptedBy(r.event) + t.accepted)
  }

  /** A run whose next iteration accepts a frame: that frame, followed by
      whatever the rest of the run accepts. */
  lemma RunAccepts(s: Session, layout: Inferred, policy: PosePolicy, script: seq<Poll>)
    requires s.status.Capturing? && |s.images| != Target
    requires |script| >= 2 && script[0].Answer? && script[1].Answer?
    requires script[0].header.sequence != s.lastSequence
    ensures var a := Acceptance(script[0].header.sequence, script[1].header, script[1].image);
      var next := Admit(s, a, policy).(log := s.log + LayoutMessages(layout));
      var t := Run(next, layout, policy, script[2..]);
      Run(s, layout, policy, script) == Trace(t.final, [a] + t.accepted)
  {
  }

  /** A run that starts with a full buffer stops at once. */
  lemma RunStopsWhenFull(s: Session, layout: Inferred, policy: PosePolicy, script: seq<Poll>)
    requires s.status.Capturing? && |s.images| == Target
    ensures Run(s, layout, policy, script) == Trace(s.(status := Done), [])
  {
    var r := Iterate(s, layout, policy, script);
    assert Run(r.session, layout, policy, r.rest) == Trace(r.session, []);
  }

  /** Deduplication only compares with the last stored sequence number:
      each accepted frame's header-only sequence differs from the one the
      previous accepted frame stored, and the first from the start value. */
  lemma {:induction false} RunIsGated(s: Session, layout: Inferred, policy: PosePolicy, script: seq<Poll>)
    ensures Gated(s.lastSequence, Run(s, layout, policy, script).accepted)
    decreases |script|, if s.status.Capturing? then 1 else 0
  {
    if s.status.Capturing? {
      var r := Iterate(s, layout, policy, script);
      if !r.event.Starved? {
        RunIsGated(r.session, layout, policy, r.rest);
        var t := Run(r.session, layout, policy, r.rest);
        if r.event.Accepted? {
          GatedPrepend(s.lastSequence, r.event.a, t.accepted);
        }
      }
    }
  }

  /** The script delivers `n` frames, each answering both polls of an
      iteration, and each with a header-only sequence number that differs
      from the one the previous frame's full poll left behind. */
  ghost predicate FreshPairs(script: seq<Poll>, last: nat, n: nat)
    decreases n
  {
    n == 0 ||
    (&& |script| >= 2 && script[0].Answer? && script[1].Answer?
     && script[0].header.sequence != last
     && FreshPairs(script[2..], script[1].header.sequence, n - 1))
  }

  /** Frame i of `acc` is the full poll of the i-th pair of `script`. */
  ghost predicate CapturedPairs(acc: seq<Acceptance>, script: seq<Poll>)
    decreases |acc|
  {
    acc == [] ||
    (&& |script| >= 2 && script[0].Answer?
     && acc[0].probe == script[0].header.sequence
     && script[1] == Answer(acc[0].header, acc[0].image)
     && CapturedPairs(acc[1..], script[2..]))
  }

  /** The run stopped with a full buffer after storing one frame per pair. */
  ghost predicate FilledFromPairs(t: Trace, script: seq<Poll>, n: nat) {
    t.final.status.Done? && |t.accepted| == n && CapturedPairs(t.accepted, script)
  }

  lemma FilledFromPairsPrepend(t: Trace, a: Acceptance, script: seq<Poll>, n: nat)
    requires |script| >= 2 && script[0].Answer? && a.probe == script[0].header.sequence
    requires FilledFromPairs(t, script[2..], n)
    requires script[1] == Answer(a.header, a.image)
    ensures FilledFromPairs(Trace(t.final, [a] + t.accepted), script, n + 1)
  {
    assert ([a] + t.accepted)[1..] == t.accepted;
  }

  /** The i-th stored frame is the full poll of the i-th pair. */
  lemma {:induction false} CapturedPairsAt(acc: seq<Acceptance>, script: seq<Poll>, i: nat)
    requires CapturedPairs(acc, script) && i < |acc|
    ensures 2 * i + 1 < |script| && script[2 * i + 1] == Answer(acc[i].header, acc[i].image)
    ensures script[2 * i].Answer? && acc[i].probe == script[2 * i].header.sequence
    decreases i
  {
    if i > 0 {
      CapturedPairsAt(acc[1..], script[2..], i - 1);
    }
  }

  /** A device that delivers fresh frames fills the buffer with exactly
      them, in order, and the loop ends normally. */
  lemma {:induction false} RunCapturesFreshPairs(s: Session, layout: Inferred, policy: PosePolicy,
                                                 script: seq<Poll>, n: nat)
    requires s.status.Capturing? && |s.images| + n == Target
    requires FreshPairs(script, s.lastSequence, n)
    ensures FilledFromPairs(Run(s, layout, policy, script), script, n)
    decreases n
  {
    if n == 0 {
      RunStopsWhenFull(s, layout, policy, script);
    } else {
      var a := Acceptance(script[0].header.sequence, script[1].header, script[1].image);
      var next := Admit(s, a, policy).(log := s.log + LayoutMessages(layout));
      RunCapturesFreshPairs(next, layout, policy, script[2..], n - 1);
      RunAccepts(s, layout, policy, script);
      FilledFromPairsPrepend(Run(next, layout, policy, script[2..]), a, script, n - 1);
    }
  }

  /** The buffer bounds the loop keeps. */
  ghost predicate Valid(s: Session) {
    && |s.images| <= Target
    && |s.poses| <= |s.images|
    && (s.status.Done? ==> |s.images| == Target)
    && (s.status.Failed? ==> s.status.code == 1 && |s.images| < Target)
  }

  /** The loop never holds more than `Target` images, never more poses than
      images, and it ends successfully exactly when the image buffer is full. */
  lemma {:induction false} RunKeepsValid(s: Session, layout: Inferred, policy: PosePolicy, script: seq<Poll>)
    requires Valid(s)
    ensures var t := Run(s, layout, policy, script);
      Valid(t.final) && (t.final.status.Done? <==> |t.final.images| == Target)
    decreases |script|, if s.status.Capturing? then 1 else 0
  {
    if s.status.Capturing? {
      var r := Iterate(s, layout, policy, script);
      if !r.event.Starved? {
        assert Valid(r.session);
        RunKeepsValid(r.session, layout, policy, r.rest);
      }
    }
  }

  /** The device never goes back: sequence numbers in the script do not
      decrease. */
  ghost predicate Monotone(script: seq<Poll>) {
    forall i, j | 0 <= i < j < |script| && script[i].Answer? && script[j].Answer? ::
      script[i].header.sequence <= script[j].header.sequence
  }

  ghost predicate NotBefore(lo: nat, script: seq<Poll>) {
    forall i | 0 <= i < |script| && script[i].Answer? :: lo <= script[i].header.sequence
  }

  /** The stored sequence numbers strictly increase, starting above `lo`. */
  ghost predicate Increasing(lo: nat, acc: seq<Acceptance>) {
    && (forall k | 0 <= k < |acc| :: lo < acc[k].header.sequence)
    && (forall i, j | 0 <= i < j < |acc| :: acc[i].header.sequence < acc[j].header.sequence)
  }

  lemma IncreasingPrepend(lo: nat, a: Acceptance, acc: seq<Acceptance>)
    requires lo < a.header.sequence && Increasing(a.header.sequence, acc)
    ensures Increasing(lo, [a] + acc)
  {
    var all := [a] + acc;
    forall i, j | 0 <= i < j < |all|
      ensures all[i].header.sequence < all[j].header.sequence
    {
      assert all[j] == acc[j - 1];
      if i > 0 {
        assert all[i] == acc[i - 1];
      }
    }
  }

  lemma MonotoneSuffix(script: seq<Poll>, d: nat)
    requires Monotone(script) && d <= |script|
    ensures Monotone(script[d..])
  {
    var rest := script[d..];
    forall i, j | 0 <= i < j < |rest| && rest[i].Answer? && rest[j].Answer?
      ensures rest[i].header.sequence <= rest[j].header.sequence
    {
      assert rest[i] == script[d + i] && rest[j] == script[d + j];
    }
  }

  lemma NotBeforeSuffix(lo: nat, script: seq<Poll>, d: nat)
    requires NotBefore(lo, script) && d <= |script|
    ensures NotBefore(lo, script[d..])
  {
    var rest := script[d..];
    forall i | 0 <= i < |rest| && rest[i].Answer?
      ensures lo <= rest[i].header.sequence
    {
      assert rest[i] == script[d + i];
    }
  }

  /** After a full poll answered, nothing later in a monotone script is older. */
  lemma MonotoneAfter(script: seq<Poll>, k: nat)
    requires Monotone(script) && k < |script| && script[k].Answer?
    ensures NotBefore(script[k].header.sequence, script[k + 1..])
  {
    var rest := script[k + 1..];
    forall i | 0 <= i < |rest| && rest[i].Answer?
      ensures script[k].header.sequence <= rest[i].header.sequence
    {
      assert rest[i] == script[k + 1 + i];
    }
  }

  /** One iteration over a monotone script leaves a monotone rest that does
      not go below the remembered sequence number, and an accepted frame is
      numbered above the one remembered before. */
  lemma IterateKeepsMonotone(s: Session, layout: Inferred, policy: PosePolicy, script: seq<Poll>)
    requires s.status.Capturing? && Monotone(script) && NotBefore(s.lastSequence, script)
    ensures var r := Iterate(s, layout, policy, script);
      && Monotone(r.rest)
      && NotBefore(r.session.lastSequence, r.rest)
      && (r.event.Accepted? ==> s.lastSequence < r.event.a.header.sequence)
  {
    var r := Iterate(s, layout, policy, script);
    var d := |script| - |r.rest|;
    MonotoneSuffix(script, d);
    if r.event.Accepted? {
      assert script[0].Answer? && script[1].Answer?;
      MonotoneAfter(script, 1);
    } else {
      NotBeforeSuffix(s.lastSequence, script, d);
    }
  }

  /** With a device whose sequence numbers never decrease, the frames the
      loop stores carry strictly increasing, hence pairwise distinct,
      sequence numbers. */
  lemma {:induction false} MonotoneDeviceStoresIncreasing(
    s: Session, layout: Inferred, policy: PosePolicy, script: seq<Poll>)
    requires Monotone(script) && NotBefore(s.lastSequence, script)
    ensures Increasing(s.lastSequence, Run(s, layout, policy, script).accepted)
    decreases |script|, if s.status.Capturing? then 1 else 0
  {
    if s.status.Capturing? {
      var r := Iterate(s, layout, policy, script);
      if !r.event.Starved? {
        IterateKeepsMonotone(s, layout, policy, script);
        MonotoneDeviceStoresIncreasing(r.session, layout, policy, r.rest);
        if r.event.Accepted? {
          IncreasingPrepend(s.lastSequence, r.event.a, Run(r.session, layout, policy, r.rest).accepted);
        }
      }
    }
  }

  // GatedUnfold and IncreasingUnfold spell out the recursive predicates as
  // quantified facts; CaptureSequences calls them so that the solver does
  // not unfold the predicates next to the Run terms, which is costly there.
  lemma GatedUnfold(initial: nat, acc: seq<Acceptance>)
    requires Gated(initial, acc)
    ensures |acc| > 0 ==> acc[0].probe != initial
    ensures forall k | 0 < k < |acc| :: acc[k].probe != acc[k - 1].header.sequence
  {
  }

  lemma IncreasingUnfold(lo: nat, acc: seq<Acceptance>)
    requires Increasing(lo, acc)
    ensures forall i | 0 <= i < |acc| :: lo < acc[i].header.sequence
    ensures forall i, j | 0 <= i < j < |acc| :: acc[i].header.sequence != acc[j].header.sequence
  {
  }

  /** How a whole capture run from program start ends: the buffers it
      leaves and the status it leaves them in. */
  lemma CaptureEnds(layout: Inferred, policy: PosePolicy, script: seq<Poll>)
    ensures var t := Run(Start(layout), layout, policy, script);
      && |t.final.images| == |t.accepted| <= Target
      && (t.final.status.Done? <==> |t.final.images| == Target)
      && (t.final.status.Failed? ==> t.final.status.code == 1)
      && |t.final.poses| <= |t.final.images|
      && (policy.SkipInvalid? ==>
            (|t.final.poses| == |t.final.images| <==>
             forall i | 0 <= i < |t.accepted| :: GoodPose(t.accepted[i].header)))
      && (policy.ZeroInvalid? ==> |t.final.poses| == |t.final.images|)
  {
    var s := Start(layout);
    RunKeepsValid(s, layout, policy, script);
    var t := Run(s, layout, policy, script);
    if policy.ZeroInvalid? {
      PosesOfPaired(policy, t.accepted);
    } else {
      SkippedPosesShorten(t.accepted);
    }
  }

  /** Which frames a whole capture run from program start stores, by
      sequence number. */
  lemma CaptureSequences(layout: Inferred, policy: PosePolicy, script: seq<Poll>)
    ensures var acc := Run(Start(layout), layout, policy, script).accepted;
      // a first frame numbered 0 is never the first one stored
      && (|acc| > 0 ==> acc[0].probe != 0)
      // consecutive stored frames passed the header-only comparison
      && (forall k | 0 < k < |acc| :: acc[k].probe != acc[k - 1].header.sequence)
      && (Monotone(script) ==>
            && (forall i | 0 <= i < |acc| :: 0 < acc[i].header.sequence)
            && (forall i, j | 0 <= i < j < |acc| :: acc[i].header.sequence != acc[j].header.sequence))
  {
    var s := Start(layout);
    var acc := Run(s, layout, policy, script).accepted;
    RunIsGated(s, layout, policy, script);
    GatedUnfold(0, acc);
    if Monotone(script) {
      MonotoneDeviceStoresIncreasing(s, layout, policy, script);
      IncreasingUnfold(0, acc);
    }
  }
}
