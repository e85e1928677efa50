/**
 * A worked run of the detector on a region of 4 by 1 pixels. The canvas
 * read before a poll holds the frame drawn by the poll before it, so each
 * sample's `prev` is the previous sample's `curr`.
 */
module Scenario {
  import opened Wrappers
  import opened FrameDiff
  import opened AutoCapture

  /** Four opaque black pixels. */
  const FrameA: seq<Byte> := [0, 0, 0, 255, 0, 0, 0, 255, 0, 0, 0, 255, 0, 0, 0, 255]

  /** Frame A with the red byte of the first three pixels raised by 6. */
  const FrameB: seq<Byte> := [6, 0, 0, 255, 6, 0, 0, 255, 6, 0, 0, 255, 0, 0, 0, 255]

  /** Quiet below 10 %, two quiet polls in a row, save when at least 50 % new. */
  const ScenarioSettings := Settings(10.0, 2.0, 50.0)

  lemma ScenarioCounts()
    ensures DiffCount(FrameA, FrameA, 4) == 0
    ensures DiffCount(FrameB, FrameA, 4) == 3 && DiffCount(FrameA, FrameB, 4) == 3
  {
  }

  /**
   * Polls 1 and 2 see A twice: the second reaches stability and adopts A as
   * baseline without saving. Poll 3 sees B (75 % changed) and resets the
   * counter; poll 4 sees A after B, 75 % again, still 0. Polls 5 and 6 see A
   * again; poll 6 reaches stability but A equals the baseline, so nothing is saved.
   */
  lemma SixPolls()
    ensures var t := ScenarioSettings;
      var o1 := Poll(Initial, Sample(FrameA, FrameA, 4, 1), t);
      var o2 := Poll(o1.state, Sample(FrameA, FrameA, 4, 1), t);
      var o3 := Poll(o2.state, Sample(FrameA, FrameB, 4, 1), t);
      var o4 := Poll(o3.state, Sample(FrameB, FrameA, 4, 1), t);
      var o5 := Poll(o4.state, Sample(FrameA, FrameA, 4, 1), t);
      var o6 := Poll(o5.state, Sample(FrameA, FrameA, 4, 1), t);
      o1 == Outcome(State(1, None), false) &&
      o2 == Outcome(State(2, Some(FrameA)), false) &&
      o3 == Outcome(State(0, Some(FrameA)), false) &&
      o4 == Outcome(State(0, Some(FrameA)), false) &&
      o5 == Outcome(State(1, Some(FrameA)), false) &&
      o6 == Outcome(State(2, Some(FrameA)), false)
  {
  }

  /**
   * Continuing from poll 6: poll 7 draws B (not quiet, counter 0), polls 8
   * and 9 see B unchanged; poll 9 is stable and B differs from the baseline A
   * in 75 % of its pixels, so B is saved and becomes the baseline.
   */
  lemma NovelFrameSaved()
    ensures var t := ScenarioSettings;
      var o7 := Poll(State(2, Some(FrameA)), Sample(FrameA, FrameB, 4, 1), t);
      var o8 := Poll(o7.state, Sample(FrameB, FrameB, 4, 1), t);
      var o9 := Poll(o8.state, Sample(FrameB, FrameB, 4, 1), t);
      o7 == Outcome(State(0, Some(FrameA)), false) &&
      o8 == Outcome(State(1, Some(FrameA)), false) &&
      o9 == Outcome(State(2, Some(FrameB)), true)
  {
  }
}
