# LED chaser playback engine

A model of the firmware of a PIC12F629 LED chaser. The chip drives two
chained 74HC595 shift registers from a table of LED patterns held in EEPROM.
Two push buttons are polled: one steps the frame delay, the other toggles
reverse play and moves on to the next pattern.

The model has five modules:

- `ShiftOut` (`shiftout.dfy`): `shiftOutByte`. A byte becomes the eight
  data-line levels seen at the eight clock pulses, least significant bit
  first. The levels reassemble to the byte.
- `Catalog` (`catalog.dfy`):
  - the 120-byte EEPROM store declared by the fifteen `__EEPROM_DATA` lines;
  - `eeprom_read`, as indexing into that store;
  - the five-entry pattern catalog set up by `initialize()`.
- `Buttons` (`buttons.dfy`):
  - the firmware's mutable globals, as an immutable `State`;
  - `checkDelayButton` and `checkPatternButton`, as pure step functions over
    one sampled level;
  - what repeated and held presses do.
- `Scan` (`schedule.dfy`): the frame order of an undisturbed cycle. This is
  the reference that the playback loops are compared against.
- `Playback` (`playback.dfy`): one iteration of `main()`'s `while(1)` body.
  - Frames are pairs of store offsets, shifted out and then latched.
  - The forward loop runs first; the reverse loop follows when `reversing`
    is set.
  - Both buttons are polled twice per frame, once on each side of the delay.
  - Button input is a sequence of samples indexed by poll number. After the
    last sample, both buttons read released.
  - A pass returns the frames it latched, the final state and the next poll
    number.

Properties proved:

- The catalog is contiguous and ends exactly at the end of the store, so every
  read either loop makes stays inside the selected entry and inside the store.
- The delay count only ever takes the values 3, 9, …, 33, and six presses
  bring it back to where it started.
- A button held for any number of polls fires its action exactly once.
- Ten pattern presses return the selection to where it started.
- Forward loop: an undisturbed cycle reads its entry in ascending order.
- Reverse loop:
  - It replays the inner forward frames in reverse.
  - No frame repeats at either turnaround.
- What a press does to a cycle:
  - A fresh pattern press stops the cycle right after the frame whose polls
    saw it.
  - A press during the forward pass means no reverse frame is shown.
  - `changePatternNow` is clear when every cycle ends.

Three behaviours of the code are easy to miss:

- `checkPatternButton` raises `changePatternNow` on every fresh press
  (src/main.c:171). That includes the first press, which only turns reverse
  play on, so it too cuts the running pass short.
- Both buttons can register a fresh press at the same poll point
  (src/main.c:209-210). `Buttons.BothButtonsCanFireInOnePoll` exhibits this.
- The comment at src/main.c:32 gives pattern 5 as 0x58 to 0x78. The catalog
  entry (88, 32) ends it at 0x77, the last byte of the store. The comment
  alone is off; no behaviour depends on it.

Both scan loops re-read `patternCatalog[catalogChoice]` at every test
(src/main.c:197-199, 230-232). The model reads the entry once, when the cycle
starts, and `Playback.ReverseKeepsEntry` shows this is exact. A press during
the forward pass either turns reversing on and leaves the index alone, or
moves the index and turns reversing off; in the second case the cycle ends
before the reverse loop (src/main.c:222-225).

## Model

| member | source | states |
|---|---|---|
| ShiftOut.ShiftOutByte | src/main.c:124-131 | exactly eight levels are produced, and level k is bit k of the byte (least significant first), bit k read by masking with 1 << k |
| ShiftOut.ReassembleBit | src/main.c:124-131 | a receiver taking the levels least significant bit first gets at bit k the level seen at pulse k |
| ShiftOut.ShiftOutRoundTrip | src/main.c:124-131 | reassembling the eight levels gives back the byte that was shifted out |
| ShiftOut.ReassembleRoundTrip | src/main.c:124-131 | every sequence of eight levels is the shift-out of the byte it reassembles to, so distinct bytes give distinct level sequences |
| Catalog.EepromLine | src/main.c:14-36 | each of the fifteen EEPROM declarations holds eight bytes, 120 in all |
| Catalog.FlattenAt | src/main.c:14-36 | eight-byte declarations laid end to end put byte a at position a % 8 of declaration a / 8 |
| Catalog.Read | src/main.c:200-203 | eeprom_read at an address in the store returns the byte at that offset of the declarations laid end to end |
| Catalog.Initialize | src/main.c:86-95 | the catalog has five entries, each of even size at least 4 inside the store, laid end to end from offset 0 to exactly 120 |
| Catalog.Entry | src/main.c:86-95 | every catalog index selects an entry both scan loops can play |
| Catalog.ContiguousCovers | src/main.c:86-95 | in a contiguous catalog every store address belongs to exactly one entry |
| Catalog.CatalogCoversStore | src/main.c:86-95 | every one of the 120 EEPROM bytes belongs to exactly one pattern |
| Buttons.InitialState | src/main.c:57-73 | the start state has pattern 0, not reversing, delay 3, both latches down, no switch pending, and satisfies the invariant |
| Buttons.NextDelay | src/main.c:142-146 | the delay action always changes the count, and from a reachable level it moves to the next of the six levels, wrapping from 33 to 3 |
| Buttons.CheckDelayButton | src/main.c:139-152 | the latch ends at the sampled level; the count changes exactly on a fresh press and then moves one level on; nothing else changes |
| Buttons.PatternPress | src/main.c:171-184 | a fresh pattern press raises changePatternNow and flips reversing; the pattern advances by one phase mod 10, and the index moves only when reversing was already on; nothing else changes |
| Buttons.CheckPatternButton | src/main.c:160-190 | the latch ends at the sampled level; reversing flips exactly on a fresh press, which also raises changePatternNow; a non-fresh poll changes only the latch; the index stays in [0, 5) |
| Buttons.Poll | src/main.c:209-210 | one poll point keeps the invariant, leaves both latches at the sampled levels, raises changePatternNow exactly on a fresh pattern press and otherwise keeps the selection |
| Buttons.PressRespectsSelection | src/main.c:175-184 | the pattern action depends only on the index and the direction flag |
| Buttons.PollTwice | src/main.c:209-218 | the two polls around a frame's delay fire the pattern action at most once, exactly when either poll sees a fresh press, and leave the latch at the second level |
| Buttons.BothButtonsCanFireInOnePoll | src/main.c:209-210 | a single poll point can step the delay and flip reversing at once |
| Buttons.FirstRise | src/main.c:161-162 | the result is a high level after a low one (or after a low latch), no earlier position is one, and it exists exactly when the run has a rising edge |
| Buttons.DelayRunCountsRises | src/main.c:139-152 | polling the delay button over a run of levels steps the delay once per rising edge and leaves the latch at the last level |
| Buttons.PatternRunCountsRises | src/main.c:160-190 | polling the pattern button over a run of levels applies the pattern action once per rising edge and leaves the latch at the last level |
| Buttons.HeldRisesOnce | src/main.c:161-187 | a run of n >= 1 active polls has one rising edge after a low latch and none after a high one |
| Buttons.HeldDelayButtonFiresOnce | src/main.c:140-149 | holding the delay button for any number of polls steps the delay exactly once |
| Buttons.HeldPatternButtonFiresOnce | src/main.c:161-187 | holding the pattern button for any number of polls applies the pattern action exactly once |
| Buttons.DelayPressesIndex | src/main.c:142-146 | n delay presses keep the count a reachable level and advance its position by n mod 6 |
| Buttons.SixDelayPressesCycle | src/main.c:139-146 | six delay presses restore the delay count, and one to five presses never do |
| Buttons.PressesIgnoreLatch | src/main.c:171-184 | the pattern action never reads or changes the pattern latch |
| Buttons.PatternPressesPhase | src/main.c:175-184 | n pattern presses keep the index valid and advance the phase (index, direction) by n mod 10 |
| Buttons.TenPatternPressesCycle | src/main.c:175-184 | ten pattern presses restore index and direction, and one to nine presses never do |
| Buttons.TenPressEventsReturnToFirstPattern | src/main.c:160-190 | from power-up, ten press-and-release events of the pattern button return to pattern 0, not reversing |
| Scan.AscendingReads | src/main.c:200-205 | consecutive pairs from a read the bytes a, a + 1, … in order |
| Scan.ForwardReadsAscending | src/main.c:197-206 | a full forward scan reads every byte of the entry once, in ascending order from its start |
| Scan.ReadsWithin | src/main.c:236-238 | pairs inside [lo, hi] read only offsets inside [lo, hi] |
| Scan.ReverseReadsInterior | src/main.c:230-240 | the reverse scan reads only offsets in [start + 2, end - 3] |
| Scan.ReverseMirrorsForward | src/main.c:227-241 | the reverse scan is the forward scan without its first and last frames, in reverse order |
| Scan.NoFrameRepeats | src/main.c:227-232 | no frame of a cycle's schedule equals the next, including the forward-to-reverse turnaround and the wrap back to the first frame |
| Playback.Current | src/main.c:197-198 | the entry the loops read is well formed whenever the index is valid |
| Playback.FrameLines | src/main.c:200-206 | one frame puts out sixteen levels whose halves reassemble to the bytes stored at the frame's two offsets |
| Playback.Forward | src/main.c:197-219 | the forward loop polls twice per frame, keeps the invariant, and ends without a pending switch only if it started without one and the selection is unchanged |
| Playback.Reverse | src/main.c:230-252 | the same for the reverse loop |
| Playback.CycleOn | src/main.c:197-254 | a cycle polls twice per frame, keeps the invariant, and ends with changePatternNow clear |
| Playback.Cycle | src/main.c:221-254 | a cycle from a valid state ends in a valid state with changePatternNow clear, whichever way it leaves |
| Playback.ForwardStopsOnlyOnSwitch | src/main.c:197-199 | the forward loop shows at most its remaining frames, shows none once a switch is pending, and stops early only with a switch pending |
| Playback.ReverseStopsOnlyOnSwitch | src/main.c:230-235 | the same for the reverse loop |
| Playback.ForwardFrameAt | src/main.c:197-216 | forward frame k is (i + 2k, i + 2k + 1), whole pairs only, followed by a reachable delay level |
| Playback.ReverseFrameAt | src/main.c:230-249 | reverse frame k is (i - 1 - 2k, i - 2k), followed by a reachable delay level |
| Playback.ForwardTicksAt | src/main.c:209-216 | the delay after forward frame k is the delay count left by the first 2k + 1 delay-button polls of the pass |
| Playback.ReverseTicksAt | src/main.c:245-249 | the delay after reverse frame k is the delay count left by the first 2k + 1 delay-button polls of the pass |
| Playback.DelayAfterCountsRises | src/main.c:139-152 | the delay count after n polls is the starting count stepped once per rising edge of the delay button's levels |
| Playback.ForwardLatchIsLastLevel | src/main.c:217-218 | after a forward pass that polled, the pattern latch holds the last level polled |
| Playback.PollsBeforePressIsFirstRise | src/main.c:161-162 | the polls before the first fresh press are counted by the first rising edge of the sampled levels |
| Playback.ForwardWithoutPress | src/main.c:197-219 | a forward pass whose polls see no fresh press shows all its frames and keeps the selection |
| Playback.ReverseWithoutPress | src/main.c:230-252 | the same for the reverse pass |
| Playback.ForwardStopsAtFirstPress | src/main.c:197-219 | a forward pass whose polls see a fresh press stops right after the frame whose polls saw the first one, with exactly that press acted on |
| Playback.ReverseStopsAtFirstPress | src/main.c:230-252 | the same for the reverse pass |
| Playback.ForwardFollowsSchedule | src/main.c:197-206 | whatever the buttons do, a forward pass shows a prefix of the entry's forward scan, every read inside the entry and the store |
| Playback.ReverseFollowsSchedule | src/main.c:230-241 | whatever the buttons do, a reverse pass shows a prefix of the entry's reverse scan, every read inside the entry and the store |
| Playback.CycleFollowsSchedule | src/main.c:197-254 | whatever the buttons do, a cycle shows a prefix of the schedule for the direction it started in, each frame inside the entry and the store and followed by a reachable delay |
| Playback.PressInForwardPassSkipsReverse | src/main.c:221-235 | a press during the forward pass ends the cycle: its frames are exactly the forward pass's, even when the press turned reversing on |
| Playback.ReverseKeepsEntry | src/main.c:175-184 | whenever the reverse loop is reached, the forward pass has left the catalog index as the cycle found it |
| Playback.ReverseUsesSelectedEntry | src/main.c:230-232 | the entry the reverse loop's test re-reads is the entry the cycle started with |
| Playback.ForwardPassWithoutPress | src/main.c:197-219 | a press-free forward pass shows all size / 2 frames, consumes size polls and leaves the latch at the last level |
| Playback.CycleWithoutPress | src/main.c:197-254 | a cycle whose polls see no fresh press shows exactly the whole schedule (the reverse scan only when reversing) and keeps the selection |
| Playback.CycleStopsInForwardPass | src/main.c:197-225 | a first press in the forward pass stops the cycle right after the frame that saw it |
| Playback.CycleStopsInReversePass | src/main.c:227-254 | a first press in the reverse pass comes after the whole forward scan and stops the cycle right after the frame that saw it |
| Playback.CycleStopsAtFirstPress | src/main.c:197-254 | a cycle whose polls see a fresh press stops right after the frame whose polls saw the first one, never mid-pair, with that one press acted on |

## Left out

- Register setup (`TRISIO`, `CMCON`, `GPIO`) and the configuration pragmas
  are hardware plumbing with no effect on the logic. The two-field
  `patternDef` struct of src/CONFIG.h is `Catalog.PatternDef`.
- `__delay_ms` is real time. A frame records only its number of delay ticks:
  the delay count after the frame's first poll (`Playback.ForwardTicksAt`,
  `Playback.ReverseTicksAt`).
- The pulse shapes on the clock and latch pins, and the 74HC595 registers
  themselves, are physics. A frame ends at "two bytes shifted out, then
  latched".
- `eeprom_read` is a hardware call. It is modelled as reading the constant
  store.
- The endless `while(1)` is not modelled as a loop. The model takes one
  cycle at a time, starting from the state the last one left.
- The firmware's `int` is 16 bits wide. Every value it holds here stays
  below 130, so unbounded integers behave the same.
- `checkDelayButton` and `checkPatternButton` read their pin twice, once in
  each test. The model takes one sample per poll point. The glitch where
  the level changes between the two reads, leaving the latch up, is not
  modelled.
- The inner `if(changePatternNow) break` of the reverse loop can never fire
  right after the loop test. It has no counterpart.
- Playback.PollsBeforePress, Playback.CyclePolls, Playback.Pairs,
  Playback.DelayAfter, Catalog.Store and Playback.CycleJoin are helpers for
  stating the lemmas above and model no firmware code of their own.
