/**
 The playback state and the two polled push-button handlers. Each handler is
 a level-plus-latch debouncer: a sample reading 1 while the latch is down is a
 fresh press, which raises the latch and fires the button's action once; any
 sample not reading 1 drops the latch.
 */
module Buttons {

  const BaseDelay := 3
  const DelayIncrement := 6
  const DelayLimit := 39
  const NumberOfPatterns := 5

  /** The number of distinct delay levels, and of (pattern, reversing) phases. */
  const DelayLevelCount := 6
  const PhaseCount := 2 * NumberOfPatterns

  /** The firmware's global variables that change while it runs. */
  datatype State = State(
    catalogChoice: int,
    reversing: bool,
    delayCount: int,
    delayButtonPressed: bool,
    patternButtonPressed: bool,
    changePatternNow: bool)

  /** One poll of both buttons: true means the input pin reads 1. */
  datatype Sample = Sample(delayHigh: bool, patternHigh: bool)

  /** The delay counts the firmware can reach: 3, 9, 15, 21, 27 and 33. */
  predicate IsDelayLevel(d: int) {
    BaseDelay <= d < DelayLimit - DelayIncrement + BaseDelay && (d - BaseDelay) % DelayIncrement == 0
  }

  /** Position of a delay level in the cycle 3, 9, ..., 33. */
  function DelayIndex(d: int): int {
    (d - BaseDelay) / DelayIncrement
  }

  /** A pattern index and direction flag, counted as one phase: two phases per pattern. */
  function Phase(s: State): int {
    2 * s.catalogChoice + (if s.reversing then 1 else 0)
  }

  /** Two states selecting the same pattern in the same direction. */
  predicate SameSelection(a: State, b: State) {
    a.catalogChoice == b.catalogChoice && a.reversing == b.reversing
  }

  predicate ValidChoice(s: State) {
    0 <= s.catalogChoice < NumberOfPatterns
  }

  /** The invariant the firmware keeps: a valid catalog index and a reachable delay level. */
  predicate Valid(s: State) {
    ValidChoice(s) && IsDelayLevel(s.delayCount)
  }

  /** The state main() starts from. */
  function InitialState(): (s: State)
    ensures Valid(s)
    ensures Phase(s) == 0 && DelayIndex(s.delayCount) == 0
    ensures !s.delayButtonPressed && !s.patternButtonPressed && !s.changePatternNow
  {
    State(0, false, BaseDelay, false, false, false)
  }

  // ---------------------------------------------------------------------------
  // Delay button

  /** The delay button's action: add 6, falling back to 3 once 39 is reached. */
  function NextDelay(d: int): (r: int)
    ensures r != d
    ensures IsDelayLevel(d) ==> IsDelayLevel(r) && DelayIndex(r) == (DelayIndex(d) + 1) % DelayLevelCount
  {
    var stepped := d + DelayIncrement;
    if stepped >= DelayLimit then BaseDelay else stepped
  }

  /** One poll of the delay button. */
  function CheckDelayButton(s: State, high: bool): (r: State)
    ensures r.delayButtonPressed == high
    ensures r.delayCount != s.delayCount <==> high && !s.delayButtonPressed
    ensures IsDelayLevel(s.delayCount) ==> IsDelayLevel(r.delayCount)
    ensures IsDelayLevel(s.delayCount) ==>
      DelayIndex(r.delayCount) == (DelayIndex(s.delayCount) + (if high && !s.delayButtonPressed then 1 else 0)) % DelayLevelCount
    ensures r.(delayCount := s.delayCount, delayButtonPressed := s.delayButtonPressed) == s
  {
    if high && !s.delayButtonPressed then
      s.(delayButtonPressed := true, delayCount := NextDelay(s.delayCount))
    else if !high then
      s.(delayButtonPressed := false)
    else
      s
  }

  // ---------------------------------------------------------------------------
  // Pattern button

  /** The pattern button's action on a fresh press. */
  function PatternPress(s: State): (r: State)
    ensures r.changePatternNow
    ensures r.reversing == !s.reversing
    ensures ValidChoice(s) ==> ValidChoice(r) && Phase(r) == (Phase(s) + 1) % PhaseCount
    ensures r.catalogChoice != s.catalogChoice ==> s.reversing || !ValidChoice(s)
    ensures r.(catalogChoice := s.catalogChoice, reversing := s.reversing, changePatternNow := s.changePatternNow) == s
  {
    var flagged := s.(changePatternNow := true);
    var toggled :=
      if !flagged.reversing then flagged.(reversing := true)
      else flagged.(reversing := false, catalogChoice := flagged.catalogChoice + 1);
    if toggled.catalogChoice >= NumberOfPatterns then toggled.(catalogChoice := 0) else toggled
  }

  /** One poll of the pattern button. */
  function CheckPatternButton(s: State, high: bool): (r: State)
    ensures r.patternButtonPressed == high
    ensures r.reversing != s.reversing <==> high && !s.patternButtonPressed
    ensures high && !s.patternButtonPressed ==> r.changePatternNow
    ensures !(high && !s.patternButtonPressed) ==> r.(patternButtonPressed := s.patternButtonPressed) == s
    ensures ValidChoice(s) ==> ValidChoice(r)
    ensures ValidChoice(s) ==>
      Phase(r) == (Phase(s) + (if high && !s.patternButtonPressed then 1 else 0)) % PhaseCount
    ensures r.delayCount == s.delayCount && r.delayButtonPressed == s.delayButtonPressed
  {
    if high && !s.patternButtonPressed then
      PatternPress(s.(patternButtonPressed := true))
    else if !high then
      s.(patternButtonPressed := false)
    else
      s
  }

  /** One poll point of the main loop: checkDelayButton() then checkPatternButton(). */
  function Poll(s: State, x: Sample): (r: State)
    ensures Valid(s) ==> Valid(r)
    ensures r.delayButtonPressed == x.delayHigh && r.patternButtonPressed == x.patternHigh
    ensures r.changePatternNow == (s.changePatternNow || (x.patternHigh && !s.patternButtonPressed))
    ensures x.patternHigh && !s.patternButtonPressed ==> SameSelection(r, PatternPress(s))
    ensures !(x.patternHigh && !s.patternButtonPressed) ==> SameSelection(r, s)
  {
    CheckPatternButton(CheckDelayButton(s, x.delayHigh), x.patternHigh)
  }

  /** A press acts on the selection alone: equal selections stay equal. */
  lemma PressRespectsSelection(a: State, b: State)
    requires SameSelection(a, b)
    ensures SameSelection(PatternPress(a), PatternPress(b))
  {
  }

  /**
   The two polls around one frame's delay: the pattern action fires when
   either poll sees a fresh press (never both, since the first raises the
   latch), and the latch ends at the second level.
   */
  lemma PollTwice(s: State, x: Sample, y: Sample)
    ensures var r := Poll(Poll(s, x), y);
      var fired := (x.patternHigh && !s.patternButtonPressed) || (y.patternHigh && !x.patternHigh);
      && r.changePatternNow == (s.changePatternNow || fired)
      && SameSelection(r, if fired then PatternPress(s) else s)
      && r.patternButtonPressed == y.patternHigh
  {
    var s1 := Poll(s, x);
    if !(x.patternHigh && !s.patternButtonPressed) && y.patternHigh && !x.patternHigh {
      PressRespectsSelection(s1, s);
    }
  }

  /** Both buttons can register a fresh press at the same poll. */
  lemma BothButtonsCanFireInOnePoll()
    ensures var s := InitialState();
            var r := Poll(s, Sample(true, true));
            r.delayCount != s.delayCount && r.reversing != s.reversing
  {
  }

  // ---------------------------------------------------------------------------
  // Runs of samples: debouncing

  /**
   The number of rising edges in a sequence of levels, where `latch` is the
   level before the first one: a high level counts when its predecessor is low.
   */
  function Rises(levels: seq<bool>, latch: bool): nat
    decreases |levels|
  {
    if |levels| == 0 then 0
    else (if levels[0] && !latch then 1 else 0) + Rises(levels[1..], levels[0])
  }

  /** The position of the first rising edge, or |levels| when there is none. */
  function FirstRise(levels: seq<bool>, latch: bool): (r: nat)
    ensures r <= |levels|
    ensures r < |levels| <==> Rises(levels, latch) > 0
    ensures r < |levels| ==> levels[r] && !(if r == 0 then latch else levels[r - 1])
    ensures forall j :: 0 <= j < r ==> !(levels[j] && !(if j == 0 then latch else levels[j - 1]))
    decreases |levels|
  {
    if |levels| == 0 then 0
    else if levels[0] && !latch then 0
    else 1 + FirstRise(levels[1..], levels[0])
  }

  /** The level the latch is left at after a run: the last level polled. */
  function LastLevel(levels: seq<bool>, latch: bool): bool {
    if |levels| == 0 then latch else levels[|levels| - 1]
  }

  /** Polling only the delay button over a run of levels. */
  function DelayRun(s: State, levels: seq<bool>): State
    decreases |levels|
  {
    if |levels| == 0 then s else DelayRun(CheckDelayButton(s, levels[0]), levels[1..])
  }

  /** Polling only the pattern button over a run of levels. */
  function PatternRun(s: State, levels: seq<bool>): State
    decreases |levels|
  {
    if |levels| == 0 then s else PatternRun(CheckPatternButton(s, levels[0]), levels[1..])
  }

  /** The delay action fires exactly once per rising edge of the button's level. */
  lemma {:induction false} DelayRunCountsRises(s: State, levels: seq<bool>)
    ensures var r := DelayRun(s, levels);
      && r.delayCount == DelayPresses(s.delayCount, Rises(levels, s.delayButtonPressed))
      && r.delayButtonPressed == LastLevel(levels, s.delayButtonPressed)
    decreases |levels|
  {
    if |levels| > 0 {
      var s' := CheckDelayButton(s, levels[0]);
      DelayRunCountsRises(s', levels[1..]);
      if |levels| > 1 {
        assert levels[1..][|levels[1..]| - 1] == levels[|levels| - 1];
      }
    }
  }

  /** The pattern action fires exactly once per rising edge of the button's level. */
  lemma {:induction false} PatternRunCountsRises(s: State, levels: seq<bool>)
    ensures var r := PatternRun(s, levels);
      var p := PatternPresses(s, Rises(levels, s.patternButtonPressed));
      && r.catalogChoice == p.catalogChoice
      && r.reversing == p.reversing
      && r.changePatternNow == p.changePatternNow
      && r.patternButtonPressed == LastLevel(levels, s.patternButtonPressed)
    decreases |levels|
  {
    if |levels| > 0 {
      var s' := CheckPatternButton(s, levels[0]);
      var n := Rises(levels[1..], levels[0]);
      PatternRunCountsRises(s', levels[1..]);
      if levels[0] && !s.patternButtonPressed {
        assert Rises(levels, s.patternButtonPressed) == 1 + n;
        assert PatternPresses(s, 1 + n) == PatternPresses(PatternPress(s), n);
        assert s' == PatternPress(s).(patternButtonPressed := true);
        PressesIgnoreLatch(PatternPress(s), true, n);
      } else {
        assert Rises(levels, s.patternButtonPressed) == n;
        assert s' == s.(patternButtonPressed := levels[0]);
        PressesIgnoreLatch(s, levels[0], n);
      }
      if |levels| > 1 {
        assert levels[1..][|levels[1..]| - 1] == levels[|levels| - 1];
      }
    }
  }

  /** A button held down for n polls in a row. */
  function Held(n: nat): seq<bool> {
    seq(n, _ => true)
  }

  /** A run of n >= 1 active polls is one rising edge, or none if the latch is already up. */
  lemma {:induction false} HeldRisesOnce(n: nat, latch: bool)
    requires n >= 1
    ensures Rises(Held(n), latch) == if latch then 0 else 1
    decreases n
  {
    if n > 1 {
      assert Held(n)[1..] == Held(n - 1);
      HeldRisesOnce(n - 1, true);
    } else {
      assert Held(n)[1..] == [];
    }
  }

  /** Holding the delay button through any number of polls steps the delay exactly once. */
  lemma HeldDelayButtonFiresOnce(s: State, n: nat)
    requires n >= 1 && IsDelayLevel(s.delayCount) && !s.delayButtonPressed
    ensures DelayRun(s, Held(n)).delayCount == NextDelay(s.delayCount)
    ensures DelayRun(s, Held(n)).delayButtonPressed
  {
    HeldRisesOnce(n, false);
    DelayRunCountsRises(s, Held(n));
  }

  /** Holding the pattern button through any number of polls acts exactly once. */
  lemma HeldPatternButtonFiresOnce(s: State, n: nat)
    requires n >= 1 && ValidChoice(s) && !s.patternButtonPressed
    ensures var r := PatternRun(s, Held(n));
      r.catalogChoice == PatternPress(s).catalogChoice && r.reversing == PatternPress(s).reversing
      && r.changePatternNow && r.patternButtonPressed
  {
    HeldRisesOnce(n, false);
    PatternRunCountsRises(s, Held(n));
  }

  // ---------------------------------------------------------------------------
  // Repeated presses

  /** The delay count after n fresh presses. */
  function DelayPresses(d: int, n: nat): int
    decreases n
  {
    if n == 0 then d else DelayPresses(NextDelay(d), n - 1)
  }

  /** One step round a cycle of length m followed by n - 1 more is n steps. */
  lemma StepThenRest(i: int, n: int, m: int)
    requires m == DelayLevelCount || m == PhaseCount
    requires 0 <= i < m && n >= 1
    ensures ((i + 1) % m + (n - 1)) % m == (i + n) % m
  {
    if i + 1 == m {
      assert (i + 1) % m == 0;
    }
  }

  lemma {:induction false} DelayPressesIndex(d: int, n: nat)
    requires IsDelayLevel(d)
    ensures IsDelayLevel(DelayPresses(d, n))
    ensures DelayIndex(DelayPresses(d, n)) == (DelayIndex(d) + n) % DelayLevelCount
    decreases n
  {
    if n > 0 {
      DelayPressesIndex(NextDelay(d), n - 1);
      StepThenRest(DelayIndex(d), n, DelayLevelCount);
    }
  }

  /** A delay level is fixed by its position in the cycle. */
  lemma DelayIndexDeterminesLevel(d: int, d': int)
    requires IsDelayLevel(d) && IsDelayLevel(d')
    requires DelayIndex(d) == DelayIndex(d')
    ensures d == d'
  {
  }

  /** Stepping round a cycle of length m by n <= m steps returns to the start only after m steps. */
  lemma StepsAroundCycle(i: int, n: int, m: int)
    requires 0 <= i < m && 0 <= n <= m
    ensures (i + n) % m == i <==> n == 0 || n == m
  {
    if i + n < m {
      assert (i + n) % m == i + n;
    } else {
      assert (i + n) % m == i + n - m;
    }
  }

  /** Six fresh presses bring the delay count back to where it was; fewer never do. */
  lemma SixDelayPressesCycle(d: int)
    requires IsDelayLevel(d)
    ensures DelayPresses(d, DelayLevelCount) == d
    ensures forall n :: 0 < n < DelayLevelCount ==> DelayPresses(d, n) != d
  {
    var i := DelayIndex(d);
    assert 0 <= i < DelayLevelCount;
    DelayPressesIndex(d, DelayLevelCount);
    StepsAroundCycle(i, DelayLevelCount, DelayLevelCount);
    DelayIndexDeterminesLevel(DelayPresses(d, DelayLevelCount), d);
    forall n | 0 < n < DelayLevelCount
      ensures DelayPresses(d, n) != d
    {
      DelayPressesIndex(d, n);
      StepsAroundCycle(i, n, DelayLevelCount);
    }
  }

  /** The selection after n fired pattern presses. */
  function PatternPresses(s: State, n: nat): State
    decreases n
  {
    if n == 0 then s else PatternPresses(PatternPress(s), n - 1)
  }

  /** Fresh presses never look at the latch. */
  lemma {:induction false} PressesIgnoreLatch(s: State, latch: bool, n: nat)
    ensures PatternPresses(s.(patternButtonPressed := latch), n) == PatternPresses(s, n).(patternButtonPressed := latch)
    decreases n
  {
    if n > 0 {
      assert PatternPress(s.(patternButtonPressed := latch)) == PatternPress(s).(patternButtonPressed := latch);
      PressesIgnoreLatch(PatternPress(s), latch, n - 1);
    }
  }

  lemma {:induction false} PatternPressesPhase(s: State, n: nat)
    requires ValidChoice(s)
    ensures ValidChoice(PatternPresses(s, n))
    ensures Phase(PatternPresses(s, n)) == (Phase(s) + n) % PhaseCount
    decreases n
  {
    if n > 0 {
      PatternPressesPhase(PatternPress(s), n - 1);
      StepThenRest(Phase(s), n, PhaseCount);
    }
  }

  /** Ten fresh presses bring the pattern index and direction flag back; fewer never do. */
  lemma TenPatternPressesCycle(s: State)
    requires ValidChoice(s)
    ensures PatternPresses(s, PhaseCount).catalogChoice == s.catalogChoice
    ensures PatternPresses(s, PhaseCount).reversing == s.reversing
    ensures forall n :: 0 < n < PhaseCount ==> Phase(PatternPresses(s, n)) != Phase(s)
  {
    PatternPressesPhase(s, PhaseCount);
    StepsAroundCycle(Phase(s), PhaseCount, PhaseCount);
    forall n | 0 < n < PhaseCount
      ensures Phase(PatternPresses(s, n)) != Phase(s)
    {
      PatternPressesPhase(s, n);
      StepsAroundCycle(Phase(s), n, PhaseCount);
    }
  }

  /** n presses of the pattern button, each followed by a release. */
  function PressReleases(n: nat): seq<bool> {
    seq(2 * n, k => k % 2 == 0)
  }

  lemma {:induction false} PressReleasesRises(n: nat)
    ensures Rises(PressReleases(n), false) == n
    decreases n
  {
    if n > 0 {
      var p := PressReleases(n);
      assert p[1..][1..] == PressReleases(n - 1);
      PressReleasesRises(n - 1);
    } else {
      assert PressReleases(n) == [];
    }
  }

  /** From power-up, ten press-and-release events return to the first pattern, not reversing. */
  lemma TenPressEventsReturnToFirstPattern()
    ensures PatternRun(InitialState(), PressReleases(PhaseCount)).catalogChoice == 0
    ensures !PatternRun(InitialState(), PressReleases(PhaseCount)).reversing
  {
    PressReleasesRises(PhaseCount);
    PatternRunCountsRises(InitialState(), PressReleases(PhaseCount));
    TenPatternPressesCycle(InitialState());
  }
}
