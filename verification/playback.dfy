/**
 The body of main()'s endless loop: a forward scan over the selected pattern,
 an optional reverse scan, and the buttons polled twice per latched frame.
 Button input is a stream of samples indexed by poll number; each poll point
 consumes one sample.
 */
module Playback {
  import opened Buttons
  import opened Catalog
  import opened Scan
  import ShiftOut

  /** One latched frame: the offsets read and the number of delay ticks that follow it. */
  datatype Frame = Frame(pair: Pair, ticks: int)

  /** The outcome of a scan pass or cycle: frames shown, final state, next poll number. */
  datatype Pass = Pass(frames: seq<Frame>, state: State, next: nat)

  /**
   The button samples of a run, by poll number. After the last recorded
   sample both buttons rest released.
   */
  type Input = seq<Sample>

  /** The sample taken at poll t. */
  function At(input: Input, t: nat): Sample {
    if t < |input| then input[t] else Sample(false, false)
  }

  /** The catalog entry selected by the current state. */
  function Current(s: State): (e: PatternDef)
    requires ValidChoice(s)
    ensures WellFormedEntry(e)
  {
    Entry(s.catalogChoice)
  }

  /** The pattern-button levels of n consecutive polls starting at poll t. */
  function PatternLevels(input: Input, t: nat, n: nat): seq<bool> {
    seq(n, k requires 0 <= k < n => At(input, t + k).patternHigh)
  }

  /** The delay-button levels of n consecutive polls starting at poll t. */
  function DelayLevels(input: Input, t: nat, n: nat): seq<bool> {
    seq(n, k requires 0 <= k < n => At(input, t + k).delayHigh)
  }

  /**
   The delay count after n polls from poll t, starting from count d with the
   delay latch at `latch`: one step of the delay cycle per fresh press, the
   latch following the level. The pattern button plays no part.
   */
  function DelayAfter(d: int, latch: bool, input: Input, t: nat, n: nat): int
    decreases n
  {
    if n == 0 then d
    else
      var high := At(input, t).delayHigh;
      DelayAfter(if high && !latch then NextDelay(d) else d, high, input, t + 1, n - 1)
  }

  /** The same count: the delay stepped once per rising edge of the sampled levels. */
  lemma {:induction false} DelayAfterCountsRises(d: int, latch: bool, input: Input, t: nat, n: nat)
    ensures DelayAfter(d, latch, input, t, n) == DelayPresses(d, Rises(DelayLevels(input, t, n), latch))
    decreases n
  {
    if n > 0 {
      var high := At(input, t).delayHigh;
      assert DelayLevels(input, t, n)[1..] == DelayLevels(input, t + 1, n - 1);
      DelayAfterCountsRises(if high && !latch then NextDelay(d) else d, high, input, t + 1, n - 1);
    }
  }

  // ---------------------------------------------------------------------------
  // Frames

  predicate InStore(p: Pair) {
    0 <= p.first < StoreSize && 0 <= p.second < StoreSize
  }

  /**
   The data-line levels for one frame: both bytes shifted out in order. The
   two halves reassemble to the bytes stored at the frame's offsets.
   */
  function FrameLines(p: Pair): (lines: seq<bool>)
    requires InStore(p)
    ensures |lines| == 16
    ensures ShiftOut.Reassemble(lines[..8]) == Read(p.first)
    ensures ShiftOut.Reassemble(lines[8..]) == Read(p.second)
  {
    var a := ShiftOut.ShiftOutByte(Read(p.first));
    var b := ShiftOut.ShiftOutByte(Read(p.second));
    ShiftOut.ShiftOutRoundTrip(Read(p.first));
    ShiftOut.ShiftOutRoundTrip(Read(p.second));
    assert (a + b)[..8] == a && (a + b)[8..] == b;
    a + b
  }

  /** A frame read from inside the entry (hence from inside the store), followed by a reachable delay. */
  predicate ShowsFrom(f: Frame, e: PatternDef) {
    && Contains(e, f.pair.first)
    && Contains(e, f.pair.second)
    && InStore(f.pair)
    && IsDelayLevel(f.ticks)
  }

  function Pairs(frames: seq<Frame>): (ps: seq<Pair>)
    ensures |ps| == |frames|
    ensures forall k :: 0 <= k < |frames| ==> ps[k] == frames[k].pair
  {
    seq(|frames|, k requires 0 <= k < |frames| => frames[k].pair)
  }

  // ---------------------------------------------------------------------------
  // The two scan loops

  /**
   The forward loop from position i over entry e: while i is below the end of
   the entry and no pattern switch is pending, show (i, i + 1), poll, delay,
   poll. The firmware re-reads the selected entry at every test. While no
   switch is pending the selection is the one the pass started with, and once
   one is pending the test fails whatever the bound, so e stands for it.
   */
  function Forward(e: PatternDef, i: int, s: State, input: Input, t: nat): (r: Pass)
    ensures r.next == t + 2 * |r.frames|
    ensures Valid(s) ==> Valid(r.state)
    ensures !r.state.changePatternNow ==> SameSelection(r.state, s) && !s.changePatternNow
    decreases End(e) - i
  {
    if i < End(e) && !s.changePatternNow then
      var s1 := Poll(s, At(input, t));
      var s2 := Poll(s1, At(input, t + 1));
      var rest := Forward(e, i + 2, s2, input, t + 2);
      Pass([Frame(Pair(i, i + 1), s1.delayCount)] + rest.frames, rest.state, rest.next)
    else
      Pass([], s, t)
  }

  /**
   The reverse loop from position i over entry e: while i is at least
   start + 2 and no pattern switch is pending, show (i - 1, i), poll, delay,
   poll. As in the forward loop, e stands for the entry the test re-reads:
   the cycle only reaches this loop with the selection it started with
   (ReverseKeepsEntry).
   */
  function Reverse(e: PatternDef, i: int, s: State, input: Input, t: nat): (r: Pass)
    ensures r.next == t + 2 * |r.frames|
    ensures Valid(s) ==> Valid(r.state)
    ensures !r.state.changePatternNow ==> SameSelection(r.state, s) && !s.changePatternNow
    decreases i - e.startLocation
  {
    if i >= e.startLocation + 2 && !s.changePatternNow then
      var s1 := Poll(s, At(input, t));
      var s2 := Poll(s1, At(input, t + 1));
      var rest := Reverse(e, i - 2, s2, input, t + 2);
      Pass([Frame(Pair(i - 1, i), s1.delayCount)] + rest.frames, rest.state, rest.next)
    else
      Pass([], s, t)
  }

  /**
   One iteration of the endless loop over entry e: the forward pass, then the
   reverse pass when reversing is set, then the pending switch is cleared.
   */
  function CycleOn(e: PatternDef, s: State, input: Input, t: nat): (r: Pass)
    ensures Valid(s) ==> Valid(r.state)
    ensures !r.state.changePatternNow
    ensures r.next == t + 2 * |r.frames|
  {
    var forward := Forward(e, e.startLocation, s, input, t);
    if !forward.state.reversing then
      Pass(forward.frames, forward.state.(changePatternNow := false), forward.next)
    else
      var backward := Reverse(e, End(e) - 3, forward.state, input, forward.next);
      Pass(forward.frames + backward.frames, backward.state.(changePatternNow := false), backward.next)
  }

  /** One iteration of the endless loop, over the entry selected when it starts. */
  function Cycle(s: State, input: Input, t: nat): (r: Pass)
    requires Valid(s)
    ensures Valid(r.state)
    ensures !r.state.changePatternNow
    ensures r.next == t + 2 * |r.frames|
  {
    CycleOn(Current(s), s, input, t)
  }

  // ---------------------------------------------------------------------------
  // What a pass shows

  /**
   A forward pass at position i with m frames to go shows at most m frames,
   shows none once a switch is pending and then changes nothing, and shows
   fewer than m only when it ends with a switch pending.
   */
  lemma {:induction false} ForwardStopsOnlyOnSwitch(e: PatternDef, i: int, s: State, input: Input, t: nat, m: nat)
    requires i + 2 * m == End(e)
    ensures var r := Forward(e, i, s, input, t);
      && |r.frames| <= m
      && (s.changePatternNow ==> r.frames == [] && r.state == s)
      && (|r.frames| < m ==> r.state.changePatternNow)
    decreases m
  {
    if m > 0 && !s.changePatternNow {
      var s2 := Poll(Poll(s, At(input, t)), At(input, t + 1));
      ForwardStopsOnlyOnSwitch(e, i + 2, s2, input, t + 2, m - 1);
    }
  }

  /** The same for a reverse pass at position i with m frames to go. */
  lemma {:induction false} ReverseStopsOnlyOnSwitch(e: PatternDef, i: int, s: State, input: Input, t: nat, m: nat)
    requires i == e.startLocation + 1 + 2 * m
    ensures var r := Reverse(e, i, s, input, t);
      && |r.frames| <= m
      && (s.changePatternNow ==> r.frames == [] && r.state == s)
      && (|r.frames| < m ==> r.state.changePatternNow)
    decreases m
  {
    if m > 0 && !s.changePatternNow {
      var s2 := Poll(Poll(s, At(input, t)), At(input, t + 1));
      ReverseStopsOnlyOnSwitch(e, i - 2, s2, input, t + 2, m - 1);
    }
  }

  /** Frame k of a forward pass from i is (i + 2k, i + 2k + 1), followed by a reachable delay level. */
  lemma {:induction false} ForwardFrameAt(e: PatternDef, i: int, s: State, input: Input, t: nat, k: nat)
    requires k < |Forward(e, i, s, input, t).frames|
    ensures Forward(e, i, s, input, t).frames[k].pair == Pair(i + 2 * k, i + 2 * k + 1)
    ensures Valid(s) ==> IsDelayLevel(Forward(e, i, s, input, t).frames[k].ticks)
    decreases k
  {
    if k > 0 {
      var s2 := Poll(Poll(s, At(input, t)), At(input, t + 1));
      ForwardFrameAt(e, i + 2, s2, input, t + 2, k - 1);
    }
  }

  /** The delay after frame k of a forward pass is the count left by the first 2k + 1 polls. */
  lemma {:induction false} ForwardTicksAt(e: PatternDef, i: int, s: State, input: Input, t: nat, k: nat)
    requires k < |Forward(e, i, s, input, t).frames|
    ensures Forward(e, i, s, input, t).frames[k].ticks == DelayAfter(s.delayCount, s.delayButtonPressed, input, t, 2 * k + 1)
    decreases k
  {
    if k > 0 {
      var s1 := Poll(s, At(input, t));
      var s2 := Poll(s1, At(input, t + 1));
      ForwardTicksAt(e, i + 2, s2, input, t + 2, k - 1);
      assert DelayAfter(s.delayCount, s.delayButtonPressed, input, t, 2 * k + 1)
          == DelayAfter(s1.delayCount, s1.delayButtonPressed, input, t + 1, 2 * k);
      assert DelayAfter(s1.delayCount, s1.delayButtonPressed, input, t + 1, 2 * k)
          == DelayAfter(s2.delayCount, s2.delayButtonPressed, input, t + 2, 2 * (k - 1) + 1);
    }
  }

  /** Frame k of a reverse pass from i is (i - 1 - 2k, i - 2k), followed by a reachable delay level. */
  lemma {:induction false} ReverseFrameAt(e: PatternDef, i: int, s: State, input: Input, t: nat, k: nat)
    requires k < |Reverse(e, i, s, input, t).frames|
    ensures Reverse(e, i, s, input, t).frames[k].pair == Pair(i - 1 - 2 * k, i - 2 * k)
    ensures Valid(s) ==> IsDelayLevel(Reverse(e, i, s, input, t).frames[k].ticks)
    decreases k
  {
    if k > 0 {
      var s2 := Poll(Poll(s, At(input, t)), At(input, t + 1));
      ReverseFrameAt(e, i - 2, s2, input, t + 2, k - 1);
    }
  }

  /** The delay after frame k of a reverse pass is the count left by the first 2k + 1 polls. */
  lemma {:induction false} ReverseTicksAt(e: PatternDef, i: int, s: State, input: Input, t: nat, k: nat)
    requires k < |Reverse(e, i, s, input, t).frames|
    ensures Reverse(e, i, s, input, t).frames[k].ticks == DelayAfter(s.delayCount, s.delayButtonPressed, input, t, 2 * k + 1)
    decreases k
  {
    if k > 0 {
      var s1 := Poll(s, At(input, t));
      var s2 := Poll(s1, At(input, t + 1));
      ReverseTicksAt(e, i - 2, s2, input, t + 2, k - 1);
      assert DelayAfter(s.delayCount, s.delayButtonPressed, input, t, 2 * k + 1)
          == DelayAfter(s1.delayCount, s1.delayButtonPressed, input, t + 1, 2 * k);
      assert DelayAfter(s1.delayCount, s1.delayButtonPressed, input, t + 1, 2 * k)
          == DelayAfter(s2.delayCount, s2.delayButtonPressed, input, t + 2, 2 * (k - 1) + 1);
    }
  }

  /** After a forward pass that polled, the pattern latch holds the last level polled. */
  lemma {:induction false} ForwardLatchIsLastLevel(e: PatternDef, i: int, s: State, input: Input, t: nat)
    ensures var r := Forward(e, i, s, input, t);
      r.next > t ==> r.state.patternButtonPressed == At(input, r.next - 1).patternHigh
    decreases End(e) - i
  {
    if i < End(e) && !s.changePatternNow {
      var s2 := Poll(Poll(s, At(input, t)), At(input, t + 1));
      ForwardLatchIsLastLevel(e, i + 2, s2, input, t + 2);
    }
  }

  // ---------------------------------------------------------------------------
  // Where a pass stops

  /**
   The number of polls, among the n from poll t on, that come before the first
   fresh pattern press; n when there is none. `latch` is the pattern latch
   before poll t.
   */
  function PollsBeforePress(input: Input, t: nat, latch: bool, n: nat): (r: nat)
    ensures r <= n
    decreases n
  {
    if n == 0 then 0
    else if At(input, t).patternHigh && !latch then 0
    else 1 + PollsBeforePress(input, t + 1, At(input, t).patternHigh, n - 1)
  }

  /** The same count, read off the sequence of levels: the first rising edge. */
  lemma {:induction false} PollsBeforePressIsFirstRise(input: Input, t: nat, latch: bool, n: nat)
    ensures PollsBeforePress(input, t, latch, n) == FirstRise(PatternLevels(input, t, n), latch)
    decreases n
  {
    if n > 0 {
      assert PatternLevels(input, t, n)[1..] == PatternLevels(input, t + 1, n - 1);
      PollsBeforePressIsFirstRise(input, t + 1, At(input, t).patternHigh, n - 1);
    }
  }

  /** The count over m frames' polls, taken one frame (two polls) at a time, as the scan loops poll. */
  lemma PollsBeforePressByFrame(input: Input, t: nat, latch: bool, m: nat)
    requires m >= 1
    ensures PollsBeforePress(input, t, latch, 2 * m) ==
      if At(input, t).patternHigh && !latch then 0
      else if At(input, t + 1).patternHigh && !At(input, t).patternHigh then 1
      else 2 + PollsBeforePress(input, t + 2, At(input, t + 1).patternHigh, 2 * (m - 1))
  {
    assert 2 * m - 1 - 1 == 2 * (m - 1);
  }

  /**
   The count over a + b polls: if the first a polls hold no fresh press, the
   count goes on from poll t + a with the latch at the level of poll t + a - 1.
   */
  lemma {:induction false} PollsBeforePressSplit(input: Input, t: nat, latch: bool, a: nat, b: nat)
    requires a >= 1
    ensures var first := PollsBeforePress(input, t, latch, a);
      && (first < a ==> PollsBeforePress(input, t, latch, a + b) == first)
      && (first == a ==>
            PollsBeforePress(input, t, latch, a + b) == a + PollsBeforePress(input, t + a, At(input, t + a - 1).patternHigh, b))
    decreases a
  {
    if a > 1 && !(At(input, t).patternHigh && !latch) {
      PollsBeforePressSplit(input, t + 1, At(input, t).patternHigh, a - 1, b);
    }
  }

  /**
   A forward pass entered with no switch pending and m frames to go, whose 2m
   polls see no fresh pattern press, shows all m frames and leaves the
   selection alone.
   */
  lemma {:induction false} ForwardWithoutPress(e: PatternDef, i: int, s: State, input: Input, t: nat, m: nat)
    requires i + 2 * m == End(e) && !s.changePatternNow
    requires PollsBeforePress(input, t, s.patternButtonPressed, 2 * m) == 2 * m
    ensures var r := Forward(e, i, s, input, t);
      |r.frames| == m && !r.state.changePatternNow && SameSelection(r.state, s)
    decreases m
  {
    if m > 0 {
      PollTwice(s, At(input, t), At(input, t + 1));
      PollsBeforePressByFrame(input, t, s.patternButtonPressed, m);
      var s2 := Poll(Poll(s, At(input, t)), At(input, t + 1));
      ForwardWithoutPress(e, i + 2, s2, input, t + 2, m - 1);
    }
  }

  /** The same for a reverse pass at position i with m frames to go. */
  lemma {:induction false} ReverseWithoutPress(e: PatternDef, i: int, s: State, input: Input, t: nat, m: nat)
    requires i == e.startLocation + 1 + 2 * m && !s.changePatternNow
    requires PollsBeforePress(input, t, s.patternButtonPressed, 2 * m) == 2 * m
    ensures var r := Reverse(e, i, s, input, t);
      |r.frames| == m && !r.state.changePatternNow && SameSelection(r.state, s)
    decreases m
  {
    if m > 0 {
      PollTwice(s, At(input, t), At(input, t + 1));
      PollsBeforePressByFrame(input, t, s.patternButtonPressed, m);
      var s2 := Poll(Poll(s, At(input, t)), At(input, t + 1));
      ReverseWithoutPress(e, i - 2, s2, input, t + 2, m - 1);
    }
  }

  /**
   When the 2m polls of such a forward pass see a fresh pattern press, the
   pass stops right after the frame whose polls saw the first one, with
   exactly that one press acted on.
   */
  lemma {:induction false} ForwardStopsAtFirstPress(e: PatternDef, i: int, s: State, input: Input, t: nat, m: nat)
    requires i + 2 * m == End(e) && !s.changePatternNow
    requires PollsBeforePress(input, t, s.patternButtonPressed, 2 * m) < 2 * m
    ensures var r := Forward(e, i, s, input, t);
      var f := PollsBeforePress(input, t, s.patternButtonPressed, 2 * m);
      && 2 * |r.frames| - 2 <= f < 2 * |r.frames|
      && r.state.changePatternNow && SameSelection(r.state, PatternPress(s))
    decreases m
  {
    PollTwice(s, At(input, t), At(input, t + 1));
    PollsBeforePressByFrame(input, t, s.patternButtonPressed, m);
    var s2 := Poll(Poll(s, At(input, t)), At(input, t + 1));
    if !s2.changePatternNow {
      ForwardStopsAtFirstPress(e, i + 2, s2, input, t + 2, m - 1);
      PressRespectsSelection(s2, s);
    }
  }

  /** The same for a reverse pass at position i with m frames to go. */
  lemma {:induction false} ReverseStopsAtFirstPress(e: PatternDef, i: int, s: State, input: Input, t: nat, m: nat)
    requires i == e.startLocation + 1 + 2 * m && !s.changePatternNow
    requires PollsBeforePress(input, t, s.patternButtonPressed, 2 * m) < 2 * m
    ensures var r := Reverse(e, i, s, input, t);
      var f := PollsBeforePress(input, t, s.patternButtonPressed, 2 * m);
      && 2 * |r.frames| - 2 <= f < 2 * |r.frames|
      && r.state.changePatternNow && SameSelection(r.state, PatternPress(s))
    decreases m
  {
    PollTwice(s, At(input, t), At(input, t + 1));
    PollsBeforePressByFrame(input, t, s.patternButtonPressed, m);
    var s2 := Poll(Poll(s, At(input, t)), At(input, t + 1));
    if !s2.changePatternNow {
      ReverseStopsAtFirstPress(e, i - 2, s2, input, t + 2, m - 1);
      PressRespectsSelection(s2, s);
    }
  }

  // ---------------------------------------------------------------------------
  // What a cycle shows

  /** A forward pass from the start of an entry shows a prefix of the full forward scan, all from inside the entry. */
  lemma ForwardFollowsSchedule(e: PatternDef, s: State, input: Input, t: nat)
    requires WellFormedEntry(e) && Valid(s)
    ensures var r := Forward(e, e.startLocation, s, input, t);
      && |r.frames| <= |ForwardPairs(e)|
      && (forall k :: 0 <= k < |r.frames| ==> r.frames[k].pair == ForwardPairs(e)[k] && ShowsFrom(r.frames[k], e))
  {
    var r := Forward(e, e.startLocation, s, input, t);
    ForwardStopsOnlyOnSwitch(e, e.startLocation, s, input, t, e.size / 2);
    forall k | 0 <= k < |r.frames|
      ensures r.frames[k].pair == ForwardPairs(e)[k] && ShowsFrom(r.frames[k], e)
    {
      ForwardFrameAt(e, e.startLocation, s, input, t, k);
    }
  }

  /** A reverse pass from end - 3 shows a prefix of the full reverse scan, all from inside the entry. */
  lemma ReverseFollowsSchedule(e: PatternDef, s: State, input: Input, t: nat)
    requires WellFormedEntry(e) && Valid(s)
    ensures var r := Reverse(e, End(e) - 3, s, input, t);
      && |r.frames| <= |ReversePairs(e)|
      && (forall k :: 0 <= k < |r.frames| ==> r.frames[k].pair == ReversePairs(e)[k] && ShowsFrom(r.frames[k], e))
  {
    var r := Reverse(e, End(e) - 3, s, input, t);
    ReverseStopsOnlyOnSwitch(e, End(e) - 3, s, input, t, e.size / 2 - 2);
    forall k | 0 <= k < |r.frames|
      ensures r.frames[k].pair == ReversePairs(e)[k] && ShowsFrom(r.frames[k], e)
    {
      ReverseFrameAt(e, End(e) - 3, s, input, t, k);
    }
  }

  /**
   Whatever the buttons do, a cycle shows a prefix of its entry's schedule
   for the direction it started in, every frame read from inside the entry
   and followed by a reachable delay.
   */
  lemma CycleFollowsSchedule(e: PatternDef, s: State, input: Input, t: nat)
    requires WellFormedEntry(e) && Valid(s)
    ensures var r := CycleOn(e, s, input, t);
      var sched := Schedule(e, s.reversing);
      && |r.frames| <= |sched|
      && (forall k :: 0 <= k < |r.frames| ==> r.frames[k].pair == sched[k] && ShowsFrom(r.frames[k], e))
  {
    var r := CycleOn(e, s, input, t);
    var forward := Forward(e, e.startLocation, s, input, t);
    ForwardFollowsSchedule(e, s, input, t);
    var shown := forward.frames;
    if forward.state.reversing {
      var backward := Reverse(e, End(e) - 3, forward.state, input, forward.next);
      if forward.state.changePatternNow {
        ReverseStopsOnlyOnSwitch(e, End(e) - 3, forward.state, input, forward.next, e.size / 2 - 2);
        assert r.frames == forward.frames + [];
      } else {
        ReverseFollowsSchedule(e, forward.state, input, forward.next);
        ForwardStopsOnlyOnSwitch(e, e.startLocation, s, input, t, e.size / 2);
        assert s.reversing;
        CycleJoin(e, forward.frames, backward.frames);
        shown := forward.frames + backward.frames;
      }
    }
    assert r.frames == shown;
    ScheduleStartsForward(e, s.reversing);
  }

  /** A full forward pass followed by a reverse-scan prefix is a prefix of the reversing schedule. */
  lemma CycleJoin(e: PatternDef, fs: seq<Frame>, bs: seq<Frame>)
    requires WellFormedEntry(e)
    requires |fs| == |ForwardPairs(e)| && |bs| <= |ReversePairs(e)|
    requires forall k :: 0 <= k < |fs| ==> fs[k].pair == ForwardPairs(e)[k] && ShowsFrom(fs[k], e)
    requires forall k :: 0 <= k < |bs| ==> bs[k].pair == ReversePairs(e)[k] && ShowsFrom(bs[k], e)
    ensures var sched := Schedule(e, true);
      forall k :: 0 <= k < |fs + bs| ==> (fs + bs)[k].pair == sched[k] && ShowsFrom((fs + bs)[k], e)
  {
    var sched := Schedule(e, true);
    forall k | 0 <= k < |fs + bs|
      ensures (fs + bs)[k].pair == sched[k] && ShowsFrom((fs + bs)[k], e)
    {
      if k >= |fs| {
        assert (fs + bs)[k] == bs[k - |fs|];
        assert sched[k] == ReversePairs(e)[k - |fs|];
      }
    }
  }

  // ---------------------------------------------------------------------------
  // Where a cycle stops

  /**
   A pattern press during the forward pass ends the cycle there: no reverse
   frame is shown, whether or not the press turned reversing on.
   */
  lemma PressInForwardPassSkipsReverse(e: PatternDef, s: State, input: Input, t: nat)
    requires WellFormedEntry(e) && !s.changePatternNow
    requires PollsBeforePress(input, t, s.patternButtonPressed, e.size) < e.size
    ensures var r := CycleOn(e, s, input, t);
      && r.frames == Forward(e, e.startLocation, s, input, t).frames
      && |r.frames| <= |ForwardPairs(e)|
      && SameSelection(r.state, PatternPress(s))
  {
    var forward := Forward(e, e.startLocation, s, input, t);
    ForwardStopsAtFirstPress(e, e.startLocation, s, input, t, e.size / 2);
    if forward.state.reversing {
      ReverseStopsOnlyOnSwitch(e, End(e) - 3, forward.state, input, forward.next, e.size / 2 - 2);
      assert forward.frames + [] == forward.frames;
    }
  }

  /**
   The reverse loop is only reached on the entry the cycle started with. A
   press during the forward pass either turns reversing on and leaves the
   index alone, or moves the index and turns reversing off, and then the cycle
   ends before the reverse loop. So taking the cycle's entry for both loops,
   rather than re-reading the catalog, is exact.
   */
  lemma ReverseKeepsEntry(e: PatternDef, s: State, input: Input, t: nat)
    requires WellFormedEntry(e) && ValidChoice(s) && !s.changePatternNow
    ensures var forward := Forward(e, e.startLocation, s, input, t);
      forward.state.reversing ==> forward.state.catalogChoice == s.catalogChoice
  {
    if PollsBeforePress(input, t, s.patternButtonPressed, e.size) == e.size {
      ForwardWithoutPress(e, e.startLocation, s, input, t, e.size / 2);
    } else {
      ForwardStopsAtFirstPress(e, e.startLocation, s, input, t, e.size / 2);
    }
  }

  /** In particular the reverse loop of a cycle runs over the catalog entry then selected. */
  lemma ReverseUsesSelectedEntry(s: State, input: Input, t: nat)
    requires ValidChoice(s) && !s.changePatternNow
    ensures var forward := Forward(Current(s), Current(s).startLocation, s, input, t);
      forward.state.reversing ==> ValidChoice(forward.state) && Current(forward.state) == Current(s)
  {
    ReverseKeepsEntry(Current(s), s, input, t);
  }

  /** The number of polls a full cycle makes: two per scheduled frame. */
  function CyclePolls(e: PatternDef, reversing: bool): (n: nat)
    requires WellFormedEntry(e)
    ensures n == if reversing then e.size + (e.size - 4) else e.size
  {
    2 * |Schedule(e, reversing)|
  }

  /** The forward pass of a press-free cycle: every forward frame, selection kept. */
  lemma ForwardPassWithoutPress(e: PatternDef, s: State, input: Input, t: nat)
    requires WellFormedEntry(e) && !s.changePatternNow
    requires PollsBeforePress(input, t, s.patternButtonPressed, e.size) == e.size
    ensures var forward := Forward(e, e.startLocation, s, input, t);
      && |forward.frames| == |ForwardPairs(e)|
      && !forward.state.changePatternNow
      && SameSelection(forward.state, s)
      && forward.next == t + e.size
      && forward.state.patternButtonPressed == At(input, t + e.size - 1).patternHigh
  {
    ForwardWithoutPress(e, e.startLocation, s, input, t, e.size / 2);
    ForwardLatchIsLastLevel(e, e.startLocation, s, input, t);
  }

  /**
   A cycle whose polls see no fresh pattern press shows its whole schedule
   and keeps the selection.
   */
  lemma CycleWithoutPress(e: PatternDef, s: State, input: Input, t: nat)
    requires WellFormedEntry(e) && Valid(s) && !s.changePatternNow
    requires PollsBeforePress(input, t, s.patternButtonPressed, CyclePolls(e, s.reversing)) == CyclePolls(e, s.reversing)
    ensures var r := CycleOn(e, s, input, t);
      Pairs(r.frames) == Schedule(e, s.reversing) && SameSelection(r.state, s)
  {
    if s.reversing {
      PollsBeforePressSplit(input, t, s.patternButtonPressed, e.size, e.size - 4);
      ForwardPassWithoutPress(e, s, input, t);
      var forward := Forward(e, e.startLocation, s, input, t);
      ReverseWithoutPress(e, End(e) - 3, forward.state, input, forward.next, e.size / 2 - 2);
    } else {
      ForwardWithoutPress(e, e.startLocation, s, input, t, e.size / 2);
    }
    CycleFollowsSchedule(e, s, input, t);
  }

  /**
   A press that first comes during the forward pass: the cycle stops right
   after the frame whose polls saw it.
   */
  lemma CycleStopsInForwardPass(e: PatternDef, s: State, input: Input, t: nat)
    requires WellFormedEntry(e) && !s.changePatternNow
    requires PollsBeforePress(input, t, s.patternButtonPressed, e.size) < e.size
    ensures var r := CycleOn(e, s, input, t);
      var f := PollsBeforePress(input, t, s.patternButtonPressed, e.size);
      && 2 * |r.frames| - 2 <= f < 2 * |r.frames|
      && SameSelection(r.state, PatternPress(s))
  {
    PressInForwardPassSkipsReverse(e, s, input, t);
    ForwardStopsAtFirstPress(e, e.startLocation, s, input, t, e.size / 2);
  }

  /**
   A press that first comes during the reverse pass: the whole forward pass
   is shown, then the reverse pass stops right after the frame whose polls
   saw it.
   */
  lemma CycleStopsInReversePass(e: PatternDef, s: State, input: Input, t: nat)
    requires WellFormedEntry(e) && !s.changePatternNow && s.reversing
    requires PollsBeforePress(input, t, s.patternButtonPressed, e.size) == e.size
    requires PollsBeforePress(input, t + e.size, At(input, t + e.size - 1).patternHigh, e.size - 4) < e.size - 4
    ensures var r := CycleOn(e, s, input, t);
      var f := PollsBeforePress(input, t + e.size, At(input, t + e.size - 1).patternHigh, e.size - 4);
      && 2 * |r.frames| - 2 <= e.size + f < 2 * |r.frames|
      && SameSelection(r.state, PatternPress(s))
  {
    ForwardPassWithoutPress(e, s, input, t);
    var forward := Forward(e, e.startLocation, s, input, t);
    ReverseStopsAtFirstPress(e, End(e) - 3, forward.state, input, forward.next, e.size / 2 - 2);
  }

  /**
   A cycle whose polls do see a fresh pattern press stops right after the
   frame whose polls saw the first one; that one press is acted on and the
   pending switch is cleared.
   */
  lemma CycleStopsAtFirstPress(e: PatternDef, s: State, input: Input, t: nat)
    requires WellFormedEntry(e) && !s.changePatternNow
    requires PollsBeforePress(input, t, s.patternButtonPressed, CyclePolls(e, s.reversing)) < CyclePolls(e, s.reversing)
    ensures var r := CycleOn(e, s, input, t);
      var f := PollsBeforePress(input, t, s.patternButtonPressed, CyclePolls(e, s.reversing));
      && 2 * |r.frames| - 2 <= f < 2 * |r.frames|
      && SameSelection(r.state, PatternPress(s))
  {
    if !s.reversing {
      CycleStopsInForwardPass(e, s, input, t);
    } else {
      PollsBeforePressSplit(input, t, s.patternButtonPressed, e.size, e.size - 4);
      if PollsBeforePress(input, t, s.patternButtonPressed, e.size) < e.size {
        CycleStopsInForwardPass(e, s, input, t);
      } else {
        CycleStopsInReversePass(e, s, input, t);
      }
    }
  }
}
