/** A device script that shows what the deduplication does not exclude. */
module Scenarios {
  import opened Matrices
  import opened Device
  import opened Layout
  import opened Capture

  /** A frame numbered `sequence` with a good pose. */
  function Frame(sequence: nat): Poll {
    Answer(FrameHeader(sequence, true, RunningOk, Zero34()), Image([]))
  }

  /** `n` frames numbered 1, 2, 1, 2, ... (starting at 2 when `phase` is
      odd), each answering both polls of one iteration. */
  function Alternating(phase: nat, n: nat): (script: seq<Poll>)
    ensures |script| == 2 * n
  {
    seq(2 * n, i requires 0 <= i < 2 * n => Frame(1 + (phase + i / 2) % 2))
  }

  lemma AlternatingTail(phase: nat, n: nat)
    requires n > 0
    ensures Alternating(phase, n)[2..] == Alternating(phase + 1, n - 1)
  {
    var script := Alternating(phase, n);
    var rest := Alternating(phase + 1, n - 1);
    forall i | 0 <= i < |rest|
      ensures script[2..][i] == rest[i]
    {
      assert script[2..][i] == script[i + 2];
      assert (i + 2) / 2 == i / 2 + 1;
    }
  }

  /** Each frame differs from the one before it, so none is discarded. */
  lemma {:induction false} AlternatingIsFresh(phase: nat, n: nat, last: nat)
    requires last != 1 + phase % 2
    ensures FreshPairs(Alternating(phase, n), last, n)
    decreases n
  {
    if n > 0 {
      var script := Alternating(phase, n);
      assert script[0] == Frame(1 + phase % 2) && script[1] == Frame(1 + phase % 2);
      AlternatingTail(phase, n);
      AlternatingIsFresh(phase + 1, n - 1, 1 + phase % 2);
    }
  }

  /** Frame i stored from the alternating script is numbered 1 + i % 2. */
  lemma CapturedAlternatingAt(acc: seq<Acceptance>, n: nat, i: nat)
    requires CapturedPairs(acc, Alternating(0, n)) && i < |acc|
    ensures acc[i].header.sequence == 1 + i % 2
  {
    CapturedPairsAt(acc, Alternating(0, n), i);
    assert (2 * i + 1) / 2 == i;
  }

  lemma CapturedAlternating(acc: seq<Acceptance>, n: nat)
    requires CapturedPairs(acc, Alternating(0, n))
    ensures forall i | 0 <= i < |acc| :: acc[i].header.sequence == 1 + i % 2
  {
    forall i | 0 <= i < |acc| {
      CapturedAlternatingAt(acc, n, i);
    }
  }

  /** Deduplication only compares with the previous frame: a device that
      alternates between two frames has every one of them stored, so the
      buffer fills with frames 1 and 2 repeated fifty times each. */
  lemma NonAdjacentRepeatsStored(layout: Inferred, policy: PosePolicy)
    ensures var t := Run(Start(layout), layout, policy, Alternating(0, Target));
      && t.final.status.Done?
      && |t.accepted| == Target
      && forall i | 0 <= i < Target :: t.accepted[i].header.sequence == 1 + i % 2
  {
    var script := Alternating(0, Target);
    AlternatingIsFresh(0, Target, 0);
    RunCapturesFreshPairs(Start(layout), layout, policy, script, Target);
    var t := Run(Start(layout), layout, policy, script);
    CapturedAlternating(t.accepted, Target);
    assert t.final.status.Done? && |t.accepted| == Target;
  }

  /** The header-only poll sees 5 and the full poll delivers 6; then the
      header-only poll sees 7, which differs from the stored 6, and the full
      poll delivers 6 again. */
  function ProbeAhead(): seq<Poll> {
    [Frame(5), Frame(6), Frame(7), Frame(6)]
  }

  /** A run on an exhausted script accepts nothing. */
  lemma RunOnEmptyAcceptsNothing(s: Session, layout: Inferred, policy: PosePolicy)
    ensures Run(s, layout, policy, []).accepted == []
  {
    if s.status.Capturing? {
      var r := Iterate(s, layout, policy, []);
      if r.event.Stopped? {
        assert !r.session.status.Capturing?;
        assert Run(r.session, layout, policy, r.rest).accepted == [];
      }
    }
  }

  /** Deduplication checks the header-only poll, not the frame the full
      poll delivers: two consecutive stored frames can carry the same
      sequence number. */
  lemma ConsecutiveRepeatStored(layout: Inferred, policy: PosePolicy)
    ensures var acc := Run(Start(layout), layout, policy, ProbeAhead()).accepted;
      |acc| == 2 && acc[0].header.sequence == 6 && acc[1].header.sequence == 6
  {
    var s := Start(layout);
    var script := ProbeAhead();
    RunAccepts(s, layout, policy, script);
    var a := Acceptance(5, script[1].header, script[1].image);
    var next := Admit(s, a, policy).(log := s.log + LayoutMessages(layout));
    assert next.status.Capturing? && |next.images| == 1 && next.lastSequence == 6;
    var rest := script[2..];
    assert rest == [Frame(7), Frame(6)] && rest[2..] == [];
    RunAccepts(next, layout, policy, rest);
    var b := Acceptance(7, rest[1].header, rest[1].image);
    var last := Admit(next, b, policy).(log := next.log + LayoutMessages(layout));
    RunOnEmptyAcceptsNothing(last, layout, policy);
    var acc := Run(s, layout, policy, script).accepted;
    assert acc == [a] + Run(next, layout, policy, rest).accepted;
    assert Run(next, layout, policy, rest).accepted == [b];
    assert |acc| == 2 && acc[0].header.sequence == 6 && acc[1].header.sequence == 6;
  }
}
