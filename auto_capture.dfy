/**
 * The auto-capture change detector of the capture window. Once per preview
 * poll it compares the region's previous canvas contents with the freshly
 * drawn frame, keeps a count of consecutive quiet polls, and once the scene
 * has been quiet long enough either adopts the frame as the first baseline
 * or, if the frame differs enough from the last saved one, saves it.
 */
module AutoCapture {
  import opened Wrappers
  import opened FrameDiff

  /**
   * The three user settings that drive auto-capture: the largest poll-to-poll
   * change that counts as quiet, how many quiet polls in a row are needed,
   * and the smallest change against the last saved frame worth a capture
   * (all three percentages or counts as plain numbers).
   */
  datatype Settings = Settings(diffThreshold: real, diffThresholdCount: real, diffThreshold2: real)

  /** The settings the component starts with. */
  const DefaultSettings := Settings(0.0, 3.0, 0.5)

  /**
   * What one poll reads from the offscreen canvas: its contents before the
   * new frame is drawn (`prev`) and after (`curr`), for a region of `w` by
   * `h` pixels.
   */
  datatype Sample = Sample(prev: seq<Byte>, curr: seq<Byte>, w: nat, h: nat)

  /** Reading image data of a region with a zero side throws, so no poll gets that far. */
  predicate Readable(s: Sample)
  {
    s.w > 0 && s.h > 0
  }

  /** The detector's two fields between polls. */
  datatype State = State(diffCount: nat, previousImage: Option<seq<Byte>>)

  /** The state after a poll, and whether the poll saved the frame. */
  datatype Outcome = Outcome(state: State, captured: bool)

  /** The state a freshly constructed component has. */
  const Initial := State(0, None)

  /** The percentage of pixels that changed between the two canvas reads. */
  function PollRate(s: Sample): real
    requires Readable(s)
  {
    Rate(DiffCount(s.curr, s.prev, s.w * s.h), s.w, s.h)
  }

  /** The percentage of pixels in which the new frame differs from `baseline`. */
  function NoveltyRate(s: Sample, baseline: seq<Byte>): real
    requires Readable(s)
  {
    Rate(DiffCount(s.curr, baseline, s.w * s.h), s.w, s.h)
  }

  /** A poll is quiet when the scene changed by at most the first threshold. */
  predicate Quiet(s: Sample, t: Settings)
    requires Readable(s)
  {
    PollRate(s) <= t.diffThreshold
  }

  /** One poll of the detector, as a function of the state before it. */
  function Poll(st: State, s: Sample, t: Settings): Outcome
    requires Readable(s)
  {
    var count := if Quiet(s, t) then st.diffCount + 1 else 0;
    if count as real >= t.diffThresholdCount then
      match st.previousImage
      case Some(baseline) =>
        if t.diffThreshold2 <= NoveltyRate(s, baseline) then
          Outcome(State(count, Some(s.curr)), true)
        else
          Outcome(State(count, st.previousImage), false)
      case None =>
        Outcome(State(count, Some(s.curr)), false)
    else
      Outcome(State(count, st.previousImage), false)
  }

  /** The detector as the component holds it: two fields updated in place. */
  class Detector {
    var diffCount: nat
    var previousImage: Option<seq<Byte>>

    constructor ()
      ensures diffCount == 0 && previousImage == None
    {
      diffCount := 0;
      previousImage := None;
    }

    /** The fields as a value. */
    function Current(): State
      reads this
    {
      State(diffCount, previousImage)
    }

    /**
     * One auto-capture poll over the canvas reads `prev` and `curr` of a
     * `w` by `h` region; `captured` stands for the call that saves `curr`.
     */
    method Step(prev: seq<Byte>, curr: seq<Byte>, w: nat, h: nat, t: Settings) returns (captured: bool)
      requires w > 0 && h > 0
      modifies this
      ensures Outcome(Current(), captured) == Poll(old(Current()), Sample(prev, curr, w, h), t)
    {
      captured := false;
      var diff := CountDiff(curr, prev, w * h);
      var diffRate := diff as real / w as real / h as real * 100.0;
      if diffRate <= t.diffThreshold {
        diffCount := diffCount + 1;
      } else {
        diffCount := 0;
      }
      if diffCount as real >= t.diffThresholdCount {
        if previousImage.Some? {
          diff := CountDiff(curr, previousImage.value, w * h);
          var diffRate2 := diff as real / w as real / h as real * 100.0;
          if t.diffThreshold2 <= diffRate2 {
            captured := true;
            previousImage := Some(curr);
          }
        } else {
          previousImage := Some(curr);
        }
      }
    }
  }

  // Properties of a single poll.

  /** Both percentages a poll computes lie between 0 and 100. */
  lemma PollRatesBounded(s: Sample, baseline: seq<Byte>)
    requires Readable(s)
    ensures 0.0 <= PollRate(s) <= 100.0
    ensures 0.0 <= NoveltyRate(s, baseline) <= 100.0
  {
    RateBounds(DiffCount(s.curr, s.prev, s.w * s.h), s.w, s.h);
    RateBounds(DiffCount(s.curr, baseline, s.w * s.h), s.w, s.h);
  }

  /** A frame that did not change since the last poll gives a rate of 0 and a quiet poll whenever the threshold is not negative. */
  lemma UnchangedFrameIsQuiet(s: Sample, t: Settings)
    requires Readable(s) && s.prev == s.curr
    ensures PollRate(s) == 0.0
    ensures t.diffThreshold >= 0.0 ==> Quiet(s, t)
  {
    DiffCountSelf(s.curr, s.w * s.h);
    RateExtremes(0, s.w, s.h);
  }

  /** A frame in which every pixel changed gives a rate of 100. */
  lemma ChangedFrameRate(s: Sample)
    requires Readable(s)
    requires forall i | 0 <= i < s.w * s.h :: PixelDiffers(s.curr, s.prev, i)
    ensures PollRate(s) == 100.0
  {
    DiffCountFullIff(s.curr, s.prev, s.w * s.h);
    RateExtremes(s.w * s.h, s.w, s.h);
  }

  /** With the default settings a poll is quiet exactly when no pixel changed by more than the tolerance. */
  lemma DefaultQuietIff(s: Sample)
    requires Readable(s)
    ensures Quiet(s, DefaultSettings) <==> forall i | 0 <= i < s.w * s.h :: !PixelDiffers(s.curr, s.prev, i)
  {
    var diff := DiffCount(s.curr, s.prev, s.w * s.h);
    RateExtremes(diff, s.w, s.h);
    RateBounds(diff, s.w, s.h);
    DiffCountZeroIff(s.curr, s.prev, s.w * s.h);
  }

  /** The quiet counter grows by one on a quiet poll and drops to 0 otherwise. */
  lemma PollCounter(st: State, s: Sample, t: Settings)
    requires Readable(s)
    ensures Poll(st, s, t).state.diffCount == if PollRate(s) <= t.diffThreshold then st.diffCount + 1 else 0
  {
  }

  /** Until the counter reaches the required count, nothing is saved and the baseline stays. */
  lemma PollBeforeStability(st: State, s: Sample, t: Settings)
    requires Readable(s)
    requires (Poll(st, s, t).state.diffCount as real) < t.diffThresholdCount
    ensures !Poll(st, s, t).captured
    ensures Poll(st, s, t).state.previousImage == st.previousImage
  {
  }

  /** A poll that is not quiet saves nothing, provided at least one quiet poll is required. */
  lemma BusyPollNeverCaptures(st: State, s: Sample, t: Settings)
    requires Readable(s) && !Quiet(s, t) && t.diffThresholdCount > 0.0
    ensures Poll(st, s, t) == Outcome(State(0, st.previousImage), false)
  {
  }

  /** The first time the scene is stable, the frame becomes the baseline and is not saved. */
  lemma PollAdoptsFirstBaseline(st: State, s: Sample, t: Settings)
    requires Readable(s) && st.previousImage == None
    requires (Poll(st, s, t).state.diffCount as real) >= t.diffThresholdCount
    ensures !Poll(st, s, t).captured
    ensures Poll(st, s, t).state.previousImage == Some(s.curr)
  {
  }

  /**
   * Once a baseline exists and the scene is stable, the frame is saved, and
   * becomes the new baseline, exactly when it differs from the baseline by
   * at least the second threshold; otherwise the baseline stays.
   */
  lemma PollWithBaseline(st: State, s: Sample, t: Settings, baseline: seq<Byte>)
    requires Readable(s) && st.previousImage == Some(baseline)
    requires (Poll(st, s, t).state.diffCount as real) >= t.diffThresholdCount
    ensures Poll(st, s, t).captured <==> t.diffThreshold2 <= NoveltyRate(s, baseline)
    ensures Poll(st, s, t).state.previousImage == if Poll(st, s, t).captured then Some(s.curr) else Some(baseline)
  {
  }

  /**
   * A save happens only after enough quiet polls, only against an existing
   * baseline, only when the frame is novel enough, and it makes the saved
   * frame the new baseline.
   */
  lemma CaptureConditions(st: State, s: Sample, t: Settings)
    requires Readable(s) && Poll(st, s, t).captured
    ensures (Poll(st, s, t).state.diffCount as real) >= t.diffThresholdCount
    ensures st.previousImage.Some? && t.diffThreshold2 <= NoveltyRate(s, st.previousImage.value)
    ensures Poll(st, s, t).state.previousImage == Some(s.curr)
  {
  }

  /** The baseline only ever changes to the polled frame, and only on a save or the first adoption. */
  lemma BaselineChanges(st: State, s: Sample, t: Settings)
    requires Readable(s) && Poll(st, s, t).state.previousImage != st.previousImage
    ensures Poll(st, s, t).state.previousImage == Some(s.curr)
    ensures Poll(st, s, t).captured || st.previousImage == None
  {
  }

  /** Once there is a baseline there always is one. */
  lemma BaselinePersists(st: State, s: Sample, t: Settings)
    requires Readable(s) && st.previousImage.Some?
    ensures Poll(st, s, t).state.previousImage.Some?
  {
  }

  /**
   * A frame that shows the same colours as the baseline is never saved again
   * when the second threshold is positive; its alpha bytes do not matter.
   */
  lemma DuplicateSuppressed(st: State, s: Sample, t: Settings)
    requires Readable(s) && t.diffThreshold2 > 0.0
    requires st.previousImage.Some? && SameColours(st.previousImage.value, s.curr)
    ensures !Poll(st, s, t).captured
  {
    var n := s.w * s.h;
    DiffCountIgnoresAlpha(s.curr, s.curr, st.previousImage.value, s.curr, n);
    DiffCountSelf(s.curr, n);
    RateExtremes(0, s.w, s.h);
  }

  // Properties of a sequence of polls.

  /** The state after the given polls, in order, with fixed settings. */
  function Run(st: State, samples: seq<Sample>, t: Settings): State
    requires forall i | 0 <= i < |samples| :: Readable(samples[i])
  {
    if samples == [] then st
    else Poll(Run(st, samples[..|samples| - 1], t), samples[|samples| - 1], t).state
  }

  /**
   * After a run, the quiet counter is the number of quiet polls at its end:
   * if the last `k` polls were quiet and the one before them was not, the
   * counter is `k`; if the whole run was quiet, it adds to the old count.
   */
  lemma {:induction false} RunCountsTrailingQuietPolls(st: State, samples: seq<Sample>, t: Settings, k: nat)
    requires forall i | 0 <= i < |samples| :: Readable(samples[i])
    requires k <= |samples|
    requires forall i | |samples| - k <= i < |samples| :: Quiet(samples[i], t)
    requires k < |samples| ==> !Quiet(samples[|samples| - k - 1], t)
    ensures Run(st, samples, t).diffCount == if k == |samples| then st.diffCount + k else k
  {
    if samples != [] {
      var last := |samples| - 1;
      var front := samples[..last];
      if k > 0 {
        assert forall i | |front| - (k - 1) <= i < |front| :: front[i] == samples[i];
        if k - 1 < |front| {
          assert front[|front| - (k - 1) - 1] == samples[|samples| - k - 1];
        }
        RunCountsTrailingQuietPolls(st, front, t, k - 1);
      }
    }
  }

  /** The number of quiet polls at the end of a run. */
  function TrailingQuiet(samples: seq<Sample>, t: Settings): (k: nat)
    requires forall i | 0 <= i < |samples| :: Readable(samples[i])
    ensures k <= |samples|
    ensures forall i | |samples| - k <= i < |samples| :: Quiet(samples[i], t)
    ensures k < |samples| ==> !Quiet(samples[|samples| - k - 1], t)
  {
    if samples == [] then 0
    else if Quiet(samples[|samples| - 1], t) then
      var front := samples[..|samples| - 1];
      assert forall i | 0 <= i < |front| :: front[i] == samples[i];
      TrailingQuiet(front, t) + 1
    else 0
  }

  /**
   * Starting from a state whose counter is 0 (a fresh component, or any
   * state right after a busy poll), a poll saves a frame only if it and the
   * polls just before it, as many as the required count, were all quiet.
   */
  lemma CaptureFollowsQuietStreak(st: State, samples: seq<Sample>, t: Settings)
    requires st.diffCount == 0
    requires samples != [] && forall i | 0 <= i < |samples| :: Readable(samples[i])
    requires Poll(Run(st, samples[..|samples| - 1], t), samples[|samples| - 1], t).captured
    ensures TrailingQuiet(samples, t) as real >= t.diffThresholdCount
    ensures forall i | 0 <= i < |samples| && ((|samples| - i) as real) <= t.diffThresholdCount :: Quiet(samples[i], t)
  {
    var k := TrailingQuiet(samples, t);
    RunCountsTrailingQuietPolls(st, samples, t, k);
    assert Run(st, samples, t) == Poll(Run(st, samples[..|samples| - 1], t), samples[|samples| - 1], t).state;
  }
}
