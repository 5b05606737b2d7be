# Verified model of the calibration, pipeline, HAL and decryption code

A Dafny model of the parts of the repository whose correctness depends on more than one line at a time:

- **Delay-window calibration** of the DDR3 sequencer (`EdgeSweep`, `Deskew`, `ReadCentre`, `WriteCentre`,
  `DqsEnable`). A strobe group is a `Lane`: one strobe tap, one tap per data bit and one data-mask tap.
  The register-driven test is a repeatable oracle: bit `i` passes exactly when the skew between the strobe
  tap and its own tap lies in an interval (possibly empty), and the mask passes on an arbitrary set of
  skews. Chain lengths and the number of bits are parameters.
- **The image pipeline** (`Filter`, `Pipeline`, `PipelineProgress`, `PipelinePasses`, `Simulator`). `Pipeline` is a state
  machine of three processes with one shared access per step; `Simulator` is the same code over mutable
  memory and refines it; safety and progress hold for every interleaving.
- **HAL alarms** (`AlarmTime`, `AlarmList`, `AlarmRuns`): wrapping times against unbounded time, a doubly
  linked ring that is edited while it is walked, and whole runs of the ring.
- **HAL file descriptors** (`Descriptors`, `FdTable`): the pool as a value with one function per call, and
  the code over the mutable pool, which refines those functions.
- **Decryption** (`NumberTheory`, `Decrypt`): modular exponentiation on 32-bit words, Fermat's little
  theorem, RSA keys, and the timer-driven decryption of an image in place.
- **The wall clock** (`WallClock`) and **the integer formatter** (`IntegerFormat`).

`CArith` holds the C arithmetic that differs from Dafny's, `Options` the type of a value that may be missing. `dafny verify dfyconfig.toml` checks everything.

Main results:

- edge reconstruction is exact: `EdgeSweep.RightSweep`, `ReadCentre.FindReadWindows`, `WriteCentre.FindWriteWindows`
- read and write calibration: outcome, success and missed settings, each with its exact condition: `ReadCentre.VfifoCenter`, `WriteCentre.WritesCenter`
- the pipeline is safe, overlaps filtering with decryption, and finishes, under every interleaving: `Pipeline.EveryRunIsSafe`, `Pipeline.SavedImageIsNearest`, `PipelinePasses.SoftPassTakesWhatWaits`, `PipelinePasses.HardPassTakesWhatWaits`, `PipelineProgress.EveryFairRunFinishes`, `Simulator.Sdram.Execute`
- the filter refines the border-extended convolution and is local: `Filter.FilterPixel`, `Filter.OutputSettledBehindFrontier`, `Filter.OutputUnsettledAtFrontier`, `Filter.BatchIsSettledIff`
- alarms fire at their due ticks, alone and in the ring, whatever is started and stopped: `AlarmTime.StartedAlarmIsOnTimeIff`, `AlarmRuns.RunEvents`, `AlarmRuns.RunTicks`
- locks stay exclusive, and when they are exclusive at all: `Descriptors.NeverTwoHolders`, `Descriptors.LockStaysExclusive`, `Descriptors.LockIsExclusiveIff`
- the descriptor table keeps its invariants, and a descriptor is in use exactly while it is open: `Descriptors.InUseIffOpened`, `Descriptors.EveryRunKeepsThePool`, `Descriptors.FreeSlotsStayCleanIff`
- an encrypted image is decrypted in place: `Decrypt.ModExpIsExactIff`, `Decrypt.DecryptWholeImage`, `NumberTheory.RsaRoundTrip`
- the settable clock is affine, and when: `WallClock.ClockIsAffineIff`, `WallClock.RateIsExactIff`
- printed integers read back, character by character: `IntegerFormat.TextRoundTrip`, `IntegerFormat.TextCharacters`, `IntegerFormat.PrintInteger`

What the proofs found:

- The read side's clamp of the strobe at the top of its chain and of a data bit at 0 never act. Read
  deskew succeeds exactly when no window ends more than one DQ chain below the chosen strobe tap. A working
  setting exists exactly when every window meets the range of the taps and none begins more than one DQ chain
  above the end of another, so the read side can fail although one exists.
- In the built configuration (`ENABLE_DQS_OUT_CENTERING` 0) the write side never moves the strobe. Its data
  part succeeds exactly when every window reaches down to the strobe, which is whenever any data taps would.
  Moving the strobe could help: a setting of all the taps exists exactly when the windows lie within one chain
  of each other and the mask passes within one chain of all of them. When a bit has no window, the write side
  leaves the strobe at its last tap, whereas the read side restores it.
- The 32-bit sum of the ends of the DQS-enable window can wrap; the middle is then 2^31 picoseconds too small.
- A DQS-enable window whose middle is 0 makes the step back to the phase before underflow; the phase that is
  committed is then 2^32 - 1.
- The mask search finds the leftmost longest run, but fails when that run lies above the strobe, although
  a shorter run at or below it may hold a working delay. If such a run includes delay 0, the mask even passes
  at the delay that is committed, and the function still returns 0.
- `mod_exp` is right for all words exactly when the modulus is at least 2 and either at most 65536 or a
  divisor of 2^32.
- An alarm delay of 2^32 - 1 fires on the next tick, except on the last tick of a lap of the counter, where
  it is kept. The comment in `alt_alarm_start.c` promises the delay asked for; the model follows the code.
- `alt_fd_lock` does not look at the slot at the high-water mark, so a lock can be granted on a device that
  a second descriptor has open. The comment in `alt_fd_lock.c` promises otherwise; the model follows the code.
  Even so, no two descriptors on one device ever both hold the lock.
- `fcntl` on a descriptor that is not open leaves flags in a free slot.
- Setting the wall clock is exact only when its 32-bit product has wrapped a multiple of 15625 times; a
  clock set to zero may still read zero at once, because a time before zero is shown as zero.
- When the tick counter wraps after the clock was set, the clock forgets the laps unless their number is a
  multiple of the tick rate. At a rate that does not divide a million some readings are wrong: at 3 ticks a
  second the clock runs ahead and then goes back.
- A filter batch that stops at the decryption frontier reads pixels that are not decrypted yet, which
  matters only if the image is decrypted in place.

## Model

| member | source | states |
|---|---|---|
| `EdgeSweep.Lane.Test` | soft_core_cpu/hps_isw_handoff/platform_hps_0/sequencer.c:3750-3842 | the mask of the bits whose strobe-to-data skew lies in their physical window at the current taps, and whether any does |
| `EdgeSweep.Lane.ApplyGroupDq` | soft_core_cpu/hps_isw_handoff/platform_hps_0/sequencer.c:1737-1745 | afterwards every data tap holds the one delay, inside its chain |
| `EdgeSweep.StepLeftKeeps` | soft_core_cpu/hps_isw_handoff/platform_hps_0/sequencer.c:5159-5172 | one test of the DQ sweep keeps the closed form of a bit's edges: last passing delay on the left, first passing delay (negated) on the right, illegal values before a pass |
| `EdgeSweep.StepRightKeeps` | soft_core_cpu/hps_isw_handoff/platform_hps_0/sequencer.c:5232-5258 | the same for one test of the DQS sweep, through all five branches including the marginal one |
| `EdgeSweep.RecordLeft` | soft_core_cpu/hps_isw_handoff/platform_hps_0/sequencer.c:5159-5172 | the loop over the bits applies that step to every bit and to its own test result |
| `EdgeSweep.RecordRight` | soft_core_cpu/hps_isw_handoff/platform_hps_0/sequencer.c:5232-5258 | the same for the DQS sweep |
| `EdgeSweep.MarkMarginal` | soft_core_cpu/hps_isw_handoff/platform_hps_0/sequencer.c:7351-7359 | the write side's marking at a stop on shift 0 touches only bits with a left edge and no right edge |
| `EdgeSweep.LeftStateStop` | soft_core_cpu/hps_isw_handoff/platform_hps_0/sequencer.c:5145-5157 | stopping the DQ sweep early is lossless: when the sticky mask is full and nothing passes, the edges are those of the full sweep |
| `EdgeSweep.RightStateStop` | soft_core_cpu/hps_isw_handoff/platform_hps_0/sequencer.c:7341-7360 | at a stop every bit has a window and exact edges, on both sides, even after the write side's marking |
| `EdgeSweep.LeftSweep` | soft_core_cpu/hps_isw_handoff/platform_hps_0/sequencer.c:5138-5177 | the whole DQ sweep leaves every bit's left edge exact and its DQ taps at 0 |
| `EdgeSweep.ResetEdges` | soft_core_cpu/hps_isw_handoff/platform_hps_0/sequencer.c:5178-5200 | bogus right edges become illegal again, and the sticky mask holds the bits with both edges (read side) or a left edge (write side, lines 7307-7329) |
| `EdgeSweep.RightShift` | soft_core_cpu/hps_isw_handoff/platform_hps_0/sequencer.c:5203-5259 | one shift either keeps the closed form for all bits or stops with exact edges for all bits |
| `EdgeSweep.RightSweep` | soft_core_cpu/hps_isw_handoff/platform_hps_0/sequencer.c:5203-5260 | edge reconstruction is exact for any number of bits whose passing skews form intervals; if a bit has no window the strobe is left at its last tap |
| `Deskew.BalancePointIsCentral` | soft_core_cpu/hps_isw_handoff/platform_hps_0/sequencer.c:5311-5355 | the offset a bit is steered to is within half a tap of its window's centre and inside the window |
| `Deskew.BalancePointRounds` | soft_core_cpu/hps_isw_handoff/platform_hps_0/sequencer.c:5355 | which way the two truncating halvings round: an odd centre goes up if the rightmost centre is even, else down |
| `Deskew.StrobeIsNearest` | soft_core_cpu/hps_isw_handoff/platform_hps_0/sequencer.c:5311-5339 | no strobe tap of the chain is nearer to the centre of the rightmost window, and of two the lower is taken |
| `Deskew.BitIsNearest` | soft_core_cpu/hps_isw_handoff/platform_hps_0/sequencer.c:5352-5379 | no tap of its chain would put a bit nearer to the centre of its window, at the committed strobe |
| `Deskew.MarginsAreAttained` | soft_core_cpu/hps_isw_handoff/platform_hps_0/sequencer.c:5372-5378 | each of the two margins is the distance of some bit from an end of its window, and no bit has a smaller one |
| `Deskew.ReadTapsInRange` | soft_core_cpu/hps_isw_handoff/platform_hps_0/sequencer.c:5322-5329 | the chosen strobe tap and data taps are in range; the clamp of the strobe at the top and of a bit at 0 never act |
| `Deskew.UnclampedBitIsCentred` | soft_core_cpu/hps_isw_handoff/platform_hps_0/sequencer.c:5352-5379 | a bit whose own shift was not clamped has margins that differ by at most one tap, even when the strobe was clamped |
| `Deskew.ReadSucceedsIffReachable` | soft_core_cpu/hps_isw_handoff/platform_hps_0/sequencer.c:5352-5443 | read deskew puts every bit inside its window if and only if no window ends more than one DQ chain below the chosen strobe tap |
| `Deskew.WriteSucceedsIffReachable` | soft_core_cpu/hps_isw_handoff/platform_hps_0/sequencer.c:7458-7491 | write deskew puts every bit inside its window if and only if every window reaches down to the unmoved strobe tap |
| `Deskew.ReadDeskewCanMissAWorkingPoint` | soft_core_cpu/hps_isw_handoff/platform_hps_0/sequencer.c:5300-5443 | the rule is not complete: two concrete windows for which it fails although other taps serve both bits |
| `Deskew.WorkableIff` | soft_core_cpu/hps_isw_handoff/platform_hps_0/sequencer.c:5300-5443 | some setting of the taps brings every bit into its window if and only if every window meets the range of the skew and none begins more than one DQ chain above the end of another |
| `Deskew.FindMidMin` | soft_core_cpu/hps_isw_handoff/platform_hps_0/sequencer.c:5300-5309 | the bit it returns has the rightmost window |
| `Deskew.ShiftIsDistance` | soft_core_cpu/hps_isw_handoff/platform_hps_0/sequencer.c:5355 | the truncating C expression on the edges is exactly the distance from the committed strobe to the bit's balance point |
| `Deskew.ShiftBit` | soft_core_cpu/hps_isw_handoff/platform_hps_0/sequencer.c:5355-5367 | one bit ends at its balance point clamped to its chain; no other tap changes |
| `Deskew.ShiftBits` | soft_core_cpu/hps_isw_handoff/platform_hps_0/sequencer.c:5349-5379 | every bit ends at its clamped balance point, and the two margins are the least left and right margins over all bits |
| `ReadCentre.EveryBitHasWindow` | soft_core_cpu/hps_isw_handoff/platform_hps_0/sequencer.c:5274-5298 | the check passes exactly when every cut window is nonempty, and then the edge arrays hold those windows |
| `ReadCentre.WindowsAreReachedSkews` | soft_core_cpu/hps_isw_handoff/platform_hps_0/sequencer.c:5130-5298 | the windows hold exactly the offsets the sweeps reach at which the physical bit passes, and all exist exactly when each bit passes at some skew within reach |
| `ReadCentre.VerdictIsTruthful` | soft_core_cpu/hps_isw_handoff/platform_hps_0/sequencer.c:5443 | the verdict on the two margins is what the test would say at the committed taps |
| `ReadCentre.CentreStrobe` | soft_core_cpu/hps_isw_handoff/platform_hps_0/sequencer.c:5311-5339 | the new strobe tap is the rounded-down centre of the rightmost window, or 0 if that lies below the chain |
| `ReadCentre.FindReadWindows` | soft_core_cpu/hps_isw_handoff/platform_hps_0/sequencer.c:5119-5298 | the sweeps find all windows exactly when they exist |
| `ReadCentre.ReadCommit` | soft_core_cpu/hps_isw_handoff/platform_hps_0/sequencer.c:5300-5443 | given the windows: committed taps, verdict, margins and figure of merit |
| `ReadCentre.ReadMissesIff` | soft_core_cpu/hps_isw_handoff/platform_hps_0/sequencer.c:5274-5443 | the read side fails although some setting of the taps passes if and only if the windows lie that close together, but the sweeps do not reach all of them, or one ends more than a chain below the chosen strobe tap |
| `ReadCentre.VfifoCenter` | soft_core_cpu/hps_isw_handoff/platform_hps_0/sequencer.c:5095-5444 | without all windows: failure, strobe restored, DQ taps 0. With all windows: taps in range; it returns 1 if and only if every bit passes at the committed taps, and if and only if every window is reachable; strobe and bits are as near to the centres of their windows as their chains allow, and the margins that enter the figure of merit are attained. In both cases: exactly when it misses a working setting |
| `WriteCentre.PassKeeps` | soft_core_cpu/hps_isw_handoff/platform_hps_0/sequencer.c:7661-7677 | after a pass the search variables are again the current run and the leftmost longest run |
| `WriteCentre.FailKeeps` | soft_core_cpu/hps_isw_handoff/platform_hps_0/sequencer.c:7678-7682 | the same after a failure |
| `WriteCentre.EarlyExitLosesNothing` | soft_core_cpu/hps_isw_handoff/platform_hps_0/sequencer.c:7724-7727 | leaving early never discards a longer run, nor an earlier one of the same length |
| `WriteCentre.MaskShiftSweep` | soft_core_cpu/hps_isw_handoff/platform_hps_0/sequencer.c:7656-7687 | the mask-shift part finds the leftmost longest run on its positions, for an arbitrary pass predicate, and resets the mask |
| `WriteCentre.StrobeProbe` | soft_core_cpu/hps_isw_handoff/platform_hps_0/sequencer.c:7696-7729 | one strobe shift, with the early exit sound for the whole rest of the axis |
| `WriteCentre.StrobeShiftSweep` | soft_core_cpu/hps_isw_handoff/platform_hps_0/sequencer.c:7695-7730 | over the glued axis the search ends with the leftmost longest passing run |
| `WriteCentre.CentreMask` | soft_core_cpu/hps_isw_handoff/platform_hps_0/sequencer.c:7646-7763 | strobe back at its tap, mask at the (clipped) middle of the best run, margin measured from its start |
| `WriteCentre.MaskIsNearest` | soft_core_cpu/hps_isw_handoff/platform_hps_0/sequencer.c:7745-7758 | with a best run, no delay of the chain is nearer to its middle than the committed one, of two the smaller is taken, and the margin is its distance from the start of the run |
| `WriteCentre.BestRunBeatsAll` | soft_core_cpu/hps_isw_handoff/platform_hps_0/sequencer.c:7646-7734 | no passing run of the axis is longer than the best one, or as long and further left, and the best one passes throughout |
| `WriteCentre.MaskSucceedsIffBestStartsLow` | soft_core_cpu/hps_isw_handoff/platform_hps_0/sequencer.c:7732-7763 | the mask margin is nonnegative if and only if a run exists and the best one starts at or below the strobe; then the committed delay is in range, inside the run, and passes |
| `WriteCentre.MarginTellsMaskIff` | soft_core_cpu/hps_isw_handoff/platform_hps_0/sequencer.c:7743-7758 | the sign of the mask margin says whether the mask passes at its committed delay, if and only if it is not the case that the best run lies above the strobe and the mask passes at delay 0 |
| `WriteCentre.MaskSearchIsCompleteIff` | soft_core_cpu/hps_isw_handoff/platform_hps_0/sequencer.c:7646-7758 | the mask part finds a delay whenever one passes, if and only if the best run does not lie above the strobe while some delay passes |
| `WriteCentre.MaskFailsWhereItPasses` | soft_core_cpu/hps_isw_handoff/platform_hps_0/sequencer.c:7743-7758 | a concrete axis on which the mask passes at its committed delay and the margin is -3 |
| `WriteCentre.MaskIsCentred` | soft_core_cpu/hps_isw_handoff/platform_hps_0/sequencer.c:7745-7751 | without clipping, the mask's margins on both sides differ by at most one tap |
| `WriteCentre.BestRunIsUnique` | soft_core_cpu/hps_isw_handoff/platform_hps_0/sequencer.c:7650-7730 | the best run is determined by the axis alone |
| `WriteCentre.MaskSearchCanMissAWorkingDelay` | soft_core_cpu/hps_isw_handoff/platform_hps_0/sequencer.c:7743-7758 | the rule is not complete: a concrete axis on which a delay passes and the mask part fails |
| `WriteCentre.FindWriteWindows` | soft_core_cpu/hps_isw_handoff/platform_hps_0/sequencer.c:7262-7411 | the sweeps find all windows exactly when they exist; otherwise the strobe stays at its last tap |
| `WriteCentre.WriteCommit` | soft_core_cpu/hps_isw_handoff/platform_hps_0/sequencer.c:7413-7499 | the strobe returns to its start tap and every bit to its clamped balance point |
| `WriteCentre.WriteVerdict` | soft_core_cpu/hps_isw_handoff/platform_hps_0/sequencer.c:7942 | the verdict on the three margins is 1 only if the bits and the mask pass at the committed taps; the converse holds exactly unless all the bits pass and the mask passes at delay 0 below a best run that lies above the strobe |
| `WriteCentre.WriteMissesIff` | soft_core_cpu/hps_isw_handoff/platform_hps_0/sequencer.c:7228-7943 | as far as the unmoved strobe allows any working setting, the write side misses it if and only if the best mask run lies above the strobe; the data part misses none |
| `WriteCentre.LaneIsWritableIff` | soft_core_cpu/hps_isw_handoff/platform_hps_0/sequencer.c:7228-7943 | some setting of all the taps, the strobe's included, passes the test on every bit and on the mask if and only if the windows lie within one chain of each other and the mask passes within one chain of all of them |
| `WriteCentre.WriteMissesElsewhereIff` | soft_core_cpu/hps_isw_handoff/platform_hps_0/sequencer.c:7228-7943 | the write side misses such a setting if and only if one exists, but a window is not found or does not reach down to the strobe, or the best mask run is missing or lies above it |
| `WriteCentre.WriteAndMaskCommit` | soft_core_cpu/hps_isw_handoff/platform_hps_0/sequencer.c:7413-7942 | data part, mask part, figure of merit and verdict together |
| `WriteCentre.WritesCenter` | soft_core_cpu/hps_isw_handoff/platform_hps_0/sequencer.c:7228-7943 | without all windows: failure with the strobe left at its last tap. With them: it returns 1 if and only if all windows reach down to the strobe and the best mask run begins at or below it; then all bits and the mask pass at the committed taps. Every bit and the mask are as near to the middle of their windows as their chains allow, clipped or not, and all three margins are what they measure. It can return 0 where they all pass, in exactly the case above. In both cases: exactly when it misses a working setting, at the unmoved strobe and anywhere |
| `DqsEnable.Reduced` | soft_core_cpu/hps_isw_handoff/platform_hps_0/sequencer.c:4556-4559 | the reduced middle lies in one VFIFO cycle, differs by whole cycles, and is positive |
| `DqsEnable.CycleDelay` | soft_core_cpu/hps_isw_handoff/platform_hps_0/sequencer.c:4553-4557 | the loop over the phases adds up the delay of one cycle, in a word |
| `DqsEnable.ReduceToCycle` | soft_core_cpu/hps_isw_handoff/platform_hps_0/sequencer.c:4559 | the subtraction loop computes that representative |
| `DqsEnable.CountTaps` | soft_core_cpu/hps_isw_handoff/platform_hps_0/sequencer.c:4561-4565 | both tap loops stop at the first count that reaches the target, or one past the chain |
| `DqsEnable.MiddleIsMiddle` | soft_core_cpu/hps_isw_handoff/platform_hps_0/sequencer.c:4552 | the middle is equally far from both ends of the window up to a picosecond, unless the 32-bit sum of the ends wraps: then it is 2^31 too small |
| `DqsEnable.FindPhase` | soft_core_cpu/hps_isw_handoff/platform_hps_0/sequencer.c:4561-4563 | the phase loop and the step back to the phase before, which underflows for a middle of 0 |
| `DqsEnable.CentreEnable` | soft_core_cpu/hps_isw_handoff/platform_hps_0/sequencer.c:4552-4580 | in 32-bit arithmetic, phase and delay point just above the reduced middle; phase 0 is replaced by phase 1 with no delay. The committed phase is in its chain if and only if the middle is positive; a middle of 0 commits the largest word. Against the window itself: whole cycles apart, the committed phase and delay land in its middle up to a delay tap, or a phase tap after the override |
| `DqsEnable.CentringLandsWithinOneTap` | soft_core_cpu/hps_isw_handoff/platform_hps_0/sequencer.c:4561-4566 | the pair lands less than one delay tap too far, in range, if and only if the chain spans the rest of the phase tap |
| `DqsEnable.OverrideLandsWithinOnePhase` | soft_core_cpu/hps_isw_handoff/platform_hps_0/sequencer.c:4572-4578 | the override of phase 0 lands less than one phase tap too far |
| `Filter.SourceInBounds` | filtro/src/filter.c:11-140 | each of the nine reads is inside the image, and less than one row and two pixels ahead |
| `Filter.ConvolutionRange` | filtro/src/filter.c:142-145 | the sum of a byte image lies in -765..765 |
| `Filter.ConvolutionOfFlatPatch` | filtro/src/filter.c:142-145 | the sum is 0 on a constant neighbourhood |
| `Filter.OutputSettledBehindFrontier` | filtro/src/filter.c:11-148 | an output depends only on the pixels up to its furthest read, and so on those below `min(idx + w + 2, w*h)` |
| `Filter.OutputUnsettledAtFrontier` | filtro/src/filter.c:11-148 | conversely, outside a one-pixel image, an output whose furthest read is not behind the frontier does change with that pixel |
| `Filter.TapPixel` | filtro/src/filter.c:23-140 | the branches on the four borders compute exactly the clamped row and column |
| `Filter.FillRow` | filtro/src/filter.c:23-45 | one row of the scratch array, with its border branches |
| `Filter.Gather` | filtro/src/filter.c:13-140 | the scratch array ends up holding the border-extended neighbourhood |
| `Filter.FilterPixel` | filtro/src/filter.c:11-148 | the loop refines the border-extended convolution, for every width and height from 1, and returns the byte nearest to the sum of its nine terms wherever that is in range |
| `Filter.TapReadsNearest` | filtro/src/filter.c:23-140 | each tap reads the pixel of the image in the row and the column nearest to its own |
| `Filter.OutputIsNearestByte` | filtro/src/filter.c:142-147 | the output is the byte nearest to the weighted sum written out with the kernel, the upper of two |
| `Filter.FlatPatchBecomesZero` | filtro/src/filter.c:142-147 | a pixel amid its likes becomes 0 |
| `Filter.Rounded` | filtro/src/filter.c:147 | the nearest whole number, halves away from zero |
| `Filter.PixelIsDefinedIff` | filtro/src/filter.c:147 | the conversion to a byte is the same under every compiler if and only if the sum lies above -1/2 and below 255 1/2 |
| `Filter.ApplyFilter` | filtro/src/filter.c:150-155 | a call writes its own range with final values and nothing else |
| `Filter.WrittenAt` | filtro/src/filter.c:150-155 | exactly the pixels of the range change |
| `Filter.ApplyInParts` | filtro/src/filter.c:150-155 | consecutive calls over any split of a range leave the output of a single call |
| `Filter.BatchIsSettledIff` | filtro/src/filter.c:150-155 | outside a one-pixel image, the outputs of a batch are independent of everything at and beyond the frontier if and only if the furthest pixel it reads, in closed form, is behind it |
| `Pipeline.SoftKeeps` | filtro/src/process.c:8-50 | every step of the soft core keeps the whole invariant |
| `Pipeline.HardKeeps` | filtro/src/process.c:52-101 | every step of the hard core keeps the whole invariant |
| `Pipeline.MainKeeps` | filtro/src/main.c:15-29 | every step of the main thread, set-up, decryption and wait, keeps the whole invariant |
| `Pipeline.RunKeeps` | filtro/src/process.c:8-121 | the invariant holds after every interleaving |
| `Pipeline.BothDoneMeansAllWritten` | filtro/src/main.c:25-29 | when both flags are set the output is the filtered image and every pixel was written once |
| `Pipeline.EveryRunIsSafe` | filtro/src/process.c:8-121 | safety over every interleaving: frontiers, disjoint regions, no pixel written twice, final output, saved image |
| `Pipeline.SavedImageIsNearest` | filtro/src/main.c:28-31 | every pixel of the saved image is the byte nearest to the weighted sum of its neighbourhood, and 0 where that is flat |
| `Pipeline.BatchesAreWorthTheirWhile` | filtro/src/process.c:26-32 | no batch of up to two rows is started while more pixels of the region are to come |
| `Pipeline.SoftBatchesAreFew` | filtro/src/process.c:26-37 | the number of nonempty soft batches is at most `start/(2w+1) + 1` |
| `Pipeline.SoftBatchReadsBeyondFrontier` | filtro/src/process.c:26-36 | a batch that stops at the frontier ends with a pixel whose neighbourhood is not decrypted yet, so batches are not settled against a producer that works in place |
| `Pipeline.SoftBatchIsSettledIff` | filtro/src/process.c:16-37 | exactly when a whole soft batch is settled against an in-place decryptor: surely at the end of decryption, never when it stops at the frontier |
| `Pipeline.HardBatchIsSettledIff` | filtro/src/process.c:67-86 | the same for a batch of the hard core |
| `PipelineProgress.DecryptionFinishes` | filtro/src/process.c:110-120 | whatever the others do, decryption is finished after the main thread's turns |
| `PipelineProgress.FilteringFinishes` | filtro/src/process.c:42-49 | once it is, a bounded number of turns of each core sets both flags, in any interleaving |
| `PipelineProgress.EveryFairRunFinishes` | filtro/src/main.c:15-29 | liveness: from any reachable state, every interleaving that keeps giving turns to all three ends with the filtered image saved |
| `PipelinePasses.SoftPassTakesWhatWaits` | filtro/src/process.c:16-49 | in any interleaving, a soft pass that reads more than two rows waiting, or the end of its region, leaves its count at the frontier it read, cut to its region; any other pass leaves it as it was; a pass is one batch |
| `PipelinePasses.SoftCatchesUp` | filtro/src/process.c:16-49 | filtering overlaps decryption: what waits when more than two rows do is taken in a bounded number of soft turns, whatever the others do |
| `PipelinePasses.HardGateOpensIff` | filtro/src/process.c:57-60 | a hard pass goes beyond its gate exactly when its region has been reached |
| `PipelinePasses.HardPassTakesWhatWaits` | filtro/src/process.c:67-100 | the same of a hard pass, for which the end of decryption is read separately |
| `PipelinePasses.HardCatchesUp` | filtro/src/process.c:57-100 | the same of the hard core at its gate |
| `Simulator.Sdram.FilterInto` | filtro/src/filter.c:150-155 | one pixel is written in place with its final value |
| `Simulator.Sdram.SoftStep` | filtro/src/process.c:8-50 | the soft core's code, one shared access at a time, refines its step of the state machine |
| `Simulator.Sdram.HardStep` | filtro/src/process.c:52-101 | the same for the hard core |
| `Simulator.Sdram.MainStep` | filtro/src/main.c:15-29 | the same for the main thread |
| `Simulator.Sdram.Execute` | filtro/src/process.c:8-121 | executing any schedule on the shared memory is the run of the state machine, and keeps the invariant |
| `AlarmTime.ArmIsExact` | soft_core_cpu/software/Proyecto1_bsp/HAL/src/alt_alarm_start.c:80-96 | the wrapped time and the flag stand for the unbounded due tick if and only if the delay is not the largest word, or the counter is at its last value |
| `AlarmTime.MaximalDelayFiresAtOnce` | soft_core_cpu/software/Proyecto1_bsp/HAL/src/alt_alarm_start.c:82-96 | the largest delay expires on the very next tick unless the counter wraps there |
| `AlarmTime.TickIsExact` | soft_core_cpu/software/Proyecto1_bsp/HAL/src/alt_tick.c:109-115 | a tick expires an alarm exactly when unbounded time reaches its due tick, and otherwise keeps it right across a wrap |
| `AlarmTime.RearmIsExact` | soft_core_cpu/software/Proyecto1_bsp/HAL/src/alt_tick.c:127-137 | re-arming by any nonzero word is right |
| `AlarmTime.FiringsAreExact` | soft_core_cpu/software/Proyecto1_bsp/HAL/src/alt_tick.c:87-141 | for any answers of the callback and any number of counter laps, the alarm fires at its due ticks and at no others |
| `AlarmTime.StartedAlarmIsOnTimeIff` | soft_core_cpu/software/Proyecto1_bsp/HAL/src/alt_alarm_start.c:78-99 | a started alarm fires at its due ticks and at no others, for ever and for all answers of its callback, if and only if the delay is not the largest word, or the counter is at its last value |
| `AlarmList.Clock.Insert` | soft_core_cpu/software/Proyecto1_bsp/HAL/inc/sys/alt_llist.h:90-98 | the ring stays linked both ways, with the new alarm first |
| `AlarmList.Clock.Unlink` | soft_core_cpu/software/Proyecto1_bsp/HAL/inc/sys/alt_llist.h:105-117 | the neighbours are tied together and the alarm points to itself |
| `AlarmList.Clock.AlarmStop` | soft_core_cpu/software/Proyecto1_bsp/HAL/src/alt_tick.c:66-73 | the ring stays linked without the alarm, which points to itself, and the others still stand for their due ticks; stopping an unlisted alarm is harmless |
| `AlarmList.Clock.AlarmStart` | soft_core_cpu/software/Proyecto1_bsp/HAL/src/alt_alarm_start.c:64-112 | the error codes; on success the list stays valid, and the new alarm is on time for ever, if and only if the delay can be kept in that sense |
| `AlarmList.Clock.Visit` | soft_core_cpu/software/Proyecto1_bsp/HAL/src/alt_tick.c:109-139 | one visit fires exactly at the due tick, then unlinks or re-arms |
| `AlarmList.Clock.WalkOn` | soft_core_cpu/software/Proyecto1_bsp/HAL/src/alt_tick.c:100-141 | the walk goes on with the next alarm listed at entry although the current one may unlink itself |
| `AlarmList.Clock.WalkAll` | soft_core_cpu/software/Proyecto1_bsp/HAL/src/alt_tick.c:100-141 | every alarm listed at entry is visited once, in order |
| `AlarmList.Clock.Tick` | soft_core_cpu/software/Proyecto1_bsp/HAL/src/alt_tick.c:87-141 | a tick calls exactly the alarms due at it, in list order, keeps exactly the others and the re-armed ones, and leaves every listed alarm standing for its next due tick and every other one pointing to itself |
| `AlarmList.CallsInOrder` | soft_core_cpu/software/Proyecto1_bsp/HAL/src/alt_tick.c:100-141 | the alarms called are exactly the listed ones that are due, in the order of the list |
| `AlarmList.StaysInOrder` | soft_core_cpu/software/Proyecto1_bsp/HAL/src/alt_tick.c:121-141 | the alarms that stay are exactly the others and those that answered, in the order of the list |
| `AlarmRuns.RunStart` | soft_core_cpu/software/Proyecto1_bsp/HAL/src/alt_alarm_start.c:64-112 | starting an alarm makes it due when asked for and changes nothing for the others |
| `AlarmRuns.RunStop` | soft_core_cpu/software/Proyecto1_bsp/HAL/src/alt_tick.c:66-73 | stopping an alarm, listed or not, makes it inactive and changes nothing for the others |
| `AlarmRuns.RunTick` | soft_core_cpu/software/Proyecto1_bsp/HAL/src/alt_tick.c:87-141 | a tick calls exactly the alarms that are due, each once, and each stands afterwards as its answer asks |
| `AlarmRuns.RunEvents` | soft_core_cpu/software/Proyecto1_bsp/HAL/src/alt_tick.c:64-141 | over any run of starts, stops and ticks in any order, whatever the callbacks answer, every alarm is called at the ticks expected of it alone, and at no others, and nobody else is called |
| `AlarmRuns.TicksExpectDueTicks` | soft_core_cpu/software/Proyecto1_bsp/HAL/src/alt_tick.c:87-141 | when nothing is started or stopped, what is expected of an alarm are its due ticks |
| `AlarmRuns.RunTicks` | soft_core_cpu/software/Proyecto1_bsp/HAL/src/alt_tick.c:87-141 | over any number of ticks of the ring, whatever the callbacks answer and whoever leaves the list, every alarm that was listed is called at its due ticks and at no others, once each, and nobody else is called |
| `Descriptors.FirstFree` | soft_core_cpu/software/Proyecto1_bsp/HAL/src/alt_get_fd.c:77-89 | the least free index |
| `Descriptors.OpenIsAllOrNothing` | soft_core_cpu/software/Proyecto1_bsp/HAL/src/alt_open.c:113-170 | an open takes the least free index above 2, with the right flags, or fails at any stage and leaves every device, and clean flag words, as they were |
| `Descriptors.OpenOutcomeIs` | soft_core_cpu/software/Proyecto1_bsp/HAL/src/alt_open.c:105-171 | an open fails exactly when the name is unknown, the pool is full, the device is locked or the driver refuses, with these errors in this order |
| `Descriptors.OpenFillsOneSlot` | soft_core_cpu/software/Proyecto1_bsp/HAL/src/alt_open.c:113-160 | a successful open changes one slot above 2, with the flags asked for but no lock, and the mark |
| `Descriptors.CloseFreesOneSlot` | soft_core_cpu/software/Proyecto1_bsp/HAL/src/alt_close.c:82-101 | a close frees any descriptor above 2 and clears its flags, whatever the driver answers, changes nothing else, and returns the driver's error or 0 |
| `Descriptors.InUseIffOpened` | soft_core_cpu/software/Proyecto1_bsp/HAL/src/alt_release_fd.c:44-51 | over every run from reset, a descriptor above 2 is in use, for the device it was opened on, exactly if a successful open returned it and no close of it followed |
| `Descriptors.SetFlagsAreReadBack` | soft_core_cpu/software/Proyecto1_bsp/HAL/src/alt_fcntl.c:81-92 | flags that were set are read back, the two settable ones as given and the others as before, with the system's own two hidden and untouched |
| `Descriptors.FcntlOtherwiseReads` | soft_core_cpu/software/Proyecto1_bsp/HAL/src/alt_fcntl.c:66-101 | reading flags, an unknown command and a negative descriptor change nothing |
| `Descriptors.IoctlRoutes` | soft_core_cpu/software/Proyecto1_bsp/HAL/src/alt_ioctl.c:106-168 | lock requests of a device lock and unlock; any other request changes nothing and hands back the driver's answer, or fails without a driver |
| `Descriptors.LockIsGrantedIff` | soft_core_cpu/software/Proyecto1_bsp/HAL/src/alt_fd_lock.c:54-75 | a lock is granted exactly when no other slot below the mark refers to the device, and sets the one flag |
| `Descriptors.MarkMovesIff` | soft_core_cpu/software/Proyecto1_bsp/HAL/src/alt_get_fd.c:77-89 | the mark moves exactly when an open, successful or not, allocates beyond it, and then to that index |
| `Descriptors.InitialPoolIs` | soft_core_cpu/software/Proyecto1_bsp/HAL/src/alt_dev.c:111-149 | the pool at reset: three standard descriptors, the others free, no mark |
| `Descriptors.StepKeeps` | soft_core_cpu/software/Proyecto1_bsp/HAL/src/alt_open.c:64-171 | every call keeps the pool's invariant |
| `Descriptors.EveryRunKeepsThePool` | soft_core_cpu/software/Proyecto1_bsp/HAL/src/alt_dev.c:111-149 | over every run from reset: standard descriptors stay, descriptors above them are at most the high-water mark, only devices carry locks, and the mark is unset or at least 3 |
| `Descriptors.FreeSlotsStayCleanIff` | soft_core_cpu/software/Proyecto1_bsp/HAL/src/alt_fcntl.c:86-92 | over every run from reset, free slots keep zero flags at every point if and only if no call of the run sets flags on a descriptor that is not open |
| `Descriptors.FcntlLittersAtReset` | soft_core_cpu/software/Proyecto1_bsp/HAL/src/alt_fcntl.c:86-92 | one concrete call that leaves a flag in a free slot |
| `Descriptors.OpenOfLockedDeviceFails` | soft_core_cpu/software/Proyecto1_bsp/HAL/src/alt_open.c:64-92 | while a device has a sole holder of its lock, opening it fails |
| `Descriptors.SoleHolderKept` | soft_core_cpu/software/Proyecto1_bsp/HAL/src/alt_open.c:105-171 | every call but the holder's own unlock or close keeps it the sole holder |
| `Descriptors.LockStaysExclusive` | soft_core_cpu/software/Proyecto1_bsp/HAL/src/alt_open.c:105-171 | the same over every run of open, close, ioctl and fcntl |
| `Descriptors.NeverTwoHolders` | soft_core_cpu/software/Proyecto1_bsp/HAL/src/alt_fd_lock.c:54-75 | over every run from reset, no two descriptors on one device both hold its lock |
| `Descriptors.LockIsExclusiveIff` | soft_core_cpu/software/Proyecto1_bsp/HAL/src/alt_fd_lock.c:54-75 | a granted lock makes a sole holder if and only if the slot at the high-water mark, which the scan omits, is not another descriptor on the device |
| `Descriptors.LockIsGrantedOnSharedDevice` | soft_core_cpu/software/Proyecto1_bsp/HAL/src/alt_fd_lock.c:61-69 | three concrete calls after which a lock is granted although a second descriptor is open |
| `Descriptors.GivingUpReleases` | soft_core_cpu/software/Proyecto1_bsp/HAL/src/alt_fd_unlock.c:52-56 | after the holder unlocks or closes, the device can be opened again |
| `FdTable.Pool.GetFd` | soft_core_cpu/software/Proyecto1_bsp/HAL/src/alt_get_fd.c:54-101 | the search loop takes the least free slot and moves the mark |
| `FdTable.Pool.ReleaseFd` | soft_core_cpu/software/Proyecto1_bsp/HAL/src/alt_release_fd.c:44-51 | a slot above 2 becomes free, the standard ones stay |
| `FdTable.Pool.FileLocked` | soft_core_cpu/software/Proyecto1_bsp/HAL/src/alt_open.c:64-92 | marks the descriptor as a device's, and finds a lock held by another descriptor exactly if there is one up to the mark |
| `FdTable.Pool.AltOpen` | soft_core_cpu/software/Proyecto1_bsp/HAL/src/alt_open.c:105-171 | the code of open refines its specification, keeps the invariant, and sets errno on failure |
| `FdTable.Pool.AltClose` | soft_core_cpu/software/Proyecto1_bsp/HAL/src/alt_close.c:64-101 | the same for close |
| `FdTable.Pool.FdLock` | soft_core_cpu/software/Proyecto1_bsp/HAL/src/alt_fd_lock.c:54-75 | the scan below the mark decides the lock |
| `FdTable.Pool.FdUnlock` | soft_core_cpu/software/Proyecto1_bsp/HAL/src/alt_fd_unlock.c:52-56 | the lock flag is cleared, nothing else changes |
| `FdTable.Pool.AltIoctl` | soft_core_cpu/software/Proyecto1_bsp/HAL/src/alt_ioctl.c:106-168 | the same for ioctl, with the lock requests routed centrally for devices only |
| `FdTable.Pool.AltFcntl` | soft_core_cpu/software/Proyecto1_bsp/HAL/src/alt_fcntl.c:66-101 | the same for fcntl, which can change only the two settable flags |
| `Decrypt.WrappingIsHarmless` | soft_core_cpu/software/Proyecto1/main.c:67-70 | for a good modulus the wrapped product has the right remainder |
| `Decrypt.ModExpIsPower` | soft_core_cpu/software/Proyecto1/main.c:65-72 | square-and-multiply from any loop state yields result times base to the exponent, modulo the modulus |
| `Decrypt.ModExp` | soft_core_cpu/software/Proyecto1/main.c:61-75 | the loop computes the power modulo a good modulus |
| `Decrypt.ModExpIsExactIff` | soft_core_cpu/software/Proyecto1/main.c:61-75 | it is right for all words if and only if the modulus is at least 2 and either at most 65536 or a divisor of 2^32 |
| `Decrypt.OverflowSpoilsSquare` | soft_core_cpu/software/Proyecto1/main.c:70 | for any other modulus above 65536, squaring 65536 is already wrong |
| `Decrypt.Decryptor.DecryptPx` | soft_core_cpu/software/Proyecto1/main.c:77-86 | the next pixel is transformed in place, once |
| `Decrypt.Decryptor.TimerIsr` | soft_core_cpu/software/Proyecto1/main.c:96-107 | an interrupt transforms one pixel in automatic mode, and never one past the end |
| `Decrypt.Decryptor.RunTimer` | soft_core_cpu/software/Proyecto1/main.c:96-107 | over any run of interrupts each pixel before the counter has been transformed exactly once and no other touched |
| `Decrypt.PixelRoundTrip` | soft_core_cpu/software/Proyecto1/main.c:77-82 | with an RSA key and a modulus up to 65536, an encrypted pixel comes back |
| `Decrypt.DecryptWholeImage` | soft_core_cpu/software/Proyecto1/main.c:77-107 | a whole encrypted image is decrypted in place to the original |
| `NumberTheory.Fermat` | soft_core_cpu/software/Proyecto1/main.c:59-75 | a prime p divides a^p - a, on which the decryption of the RSA primitive rests |
| `NumberTheory.RsaRoundTrip` | soft_core_cpu/software/Proyecto1/main.c:77-82 | for a key made of two primes and inverse exponents, decrypting an encryption gives the message (section 5.1.2 of RFC 8017) |
| `NumberTheory.SomeKey` | soft_core_cpu/software/Proyecto1/main.c:77-82 | such keys exist: modulus 33, exponents 3 and 7 |
| `WallClock.Normalise` | soft_core_cpu/software/Proyecto1_bsp/HAL/src/alt_gettod.c:95-112 | the two loops carry whole seconds, and turn a time before zero into zero |
| `WallClock.NormalisedIsComplete` | soft_core_cpu/software/Proyecto1_bsp/HAL/src/alt_gettod.c:95-112 | normalising keeps the time, also one before zero, unless microseconds below zero would take it before zero: then it is zero |
| `WallClock.Clock.SetTimeOfDay` | soft_core_cpu/software/Proyecto1_bsp/HAL/src/alt_settod.c:72-96 | what is stored, in 32-bit arithmetic, and the error without a clock |
| `WallClock.Clock.GetTimeOfDay` | soft_core_cpu/software/Proyecto1_bsp/HAL/src/alt_gettod.c:71-124 | what is read, with the product in 64 bits, and the error without a clock |
| `WallClock.WordRemainderIff` | soft_core_cpu/software/Proyecto1_bsp/HAL/src/alt_settod.c:83-84 | a 32-bit product has the right remainder by a million exactly when it wrapped a multiple of 15625 times |
| `WallClock.Clock.Tick` | soft_core_cpu/software/Proyecto1_bsp/HAL/src/alt_tick.c:96 | the counter is a word and wraps |
| `WallClock.Clock.SetAndReadLater` | soft_core_cpu/software/Proyecto1_bsp/HAL/src/alt_settod.c:72-96 | a clock that is set, ticks k times and is read shows the reading the lemmas are about |
| `WallClock.ReadingDrifts` | soft_core_cpu/software/Proyecto1_bsp/HAL/src/alt_gettod.c:79-120 | set to t and read k ticks later, after the counter has wrapped a multiple of the tick rate, the clock shows t, k tick periods and what the 32-bit product lost at set time, or zero if that lies before zero |
| `WallClock.LapsAreLost` | soft_core_cpu/software/Proyecto1_bsp/HAL/src/alt_gettod.c:79-120 | when the rate does not divide the number of wraps, the reading is wrong |
| `WallClock.ClockIsAffineIff` | soft_core_cpu/software/Proyecto1_bsp/HAL/src/alt_gettod.c:79-120 | for a rate that divides a million, the reading is exactly t and k tick periods if and only if the product wrapped a multiple of 15625 times and the rate divides the wraps of the counter, or t and k are zero and the loss is negative |
| `WallClock.RateIsExactIff` | soft_core_cpu/software/Proyecto1_bsp/HAL/src/alt_gettod.c:79-120 | all readings in range whose setting is exact and whose wraps the rate divides are exact if and only if the rate divides a million |
| `WallClock.SettingIsExactIff` | soft_core_cpu/software/Proyecto1_bsp/HAL/src/alt_settod.c:75-90 | at any tick rate, an immediate reading returns what was set if and only if that condition holds |
| `WallClock.WrappedSettingIsWrong` | soft_core_cpu/software/Proyecto1_bsp/HAL/src/alt_settod.c:75-90 | at 1000 ticks a second and a count of 4295000, one second reads as 0.967296 seconds, and zero as zero |
| `WallClock.LapIsForgotten` | soft_core_cpu/software/Proyecto1_bsp/HAL/src/alt_gettod.c:79-120 | at 1000 ticks a second, set to 5000000 s and read 2^32 ticks later, the clock shows 5000000 s |
| `WallClock.LapIsHarmless` | soft_core_cpu/software/Proyecto1_bsp/HAL/src/alt_gettod.c:79-120 | at one tick a second a wrap of the counter loses nothing |
| `WallClock.UnevenClockGoesBack` | soft_core_cpu/software/Proyecto1_bsp/HAL/src/alt_gettod.c:79-120 | at 3 ticks a second, the third tick reads 1.999999 s and the fourth 1.333332 s |
| `IntegerFormat.DigitCountIsExact` | soft_core_cpu/software/Proyecto1_bsp/HAL/src/alt_log_printf.c:247-255 | the digit count is the least that suffices |
| `IntegerFormat.HornerOfDigits` | soft_core_cpu/software/Proyecto1_bsp/HAL/src/alt_log_printf.c:281-297 | the printed digits are worth the value |
| `IntegerFormat.TextRoundTrip` | soft_core_cpu/software/Proyecto1_bsp/HAL/src/alt_log_printf.c:206-297 | the text parses back to the value, for every 32-bit value, base, sign mode, width and zero flag |
| `IntegerFormat.MeaningIsWord` | soft_core_cpu/software/Proyecto1_bsp/HAL/src/alt_log_printf.c:206-246 | the value that is printed is the word itself, read as signed or unsigned |
| `IntegerFormat.TextCharacters` | soft_core_cpu/software/Proyecto1_bsp/HAL/src/alt_log_printf.c:257-297 | every character of the text: blanks, sign and digits, or with leading zeros sign, zeros and digits, the digits from the alphabet of the base in the case asked for |
| `IntegerFormat.TextLength` | soft_core_cpu/software/Proyecto1_bsp/HAL/src/alt_log_printf.c:257-280 | the text has the length of the width, or of its sign and digits if those are more |
| `IntegerFormat.NoLeadingZero` | soft_core_cpu/software/Proyecto1_bsp/HAL/src/alt_log_printf.c:247-255 | a positive number does not begin with a zero digit |
| `IntegerFormat.RepChar` | soft_core_cpu/software/Proyecto1_bsp/HAL/src/alt_log_printf.c:106-110 | the character repeated, or nothing for a count that is not positive |
| `IntegerFormat.CountDigits` | soft_core_cpu/software/Proyecto1_bsp/HAL/src/alt_log_printf.c:247-255 | digit count and largest place value, which never leaves a word |
| `IntegerFormat.PrintPrefix` | soft_core_cpu/software/Proyecto1_bsp/HAL/src/alt_log_printf.c:257-280 | blanks before the sign, zeros after it |
| `IntegerFormat.PrintDigits` | soft_core_cpu/software/Proyecto1_bsp/HAL/src/alt_log_printf.c:281-296 | the digits of the value, the highest first |
| `IntegerFormat.PrintInteger` | soft_core_cpu/software/Proyecto1_bsp/HAL/src/alt_log_printf.c:206-297 | the whole conversion emits the specified text |

## Left out

- Register accesses, ODT masks, mode registers, ROM tables, reports and the variants of the sequencer that are not built (QDRII, RLDRAM, LRDIMM, shadow registers); the test is the oracle described above.
- Tests whose outcome changes from one call to the next: the marginal branches of the sweeps are modelled, and are shown to have nothing to do under a repeatable test.
- Bit masks of the sequencer are sequences of booleans, one per bit, which is what at most 32 bits of a word are; the read-side and write-side sweeps, which differ only in the sticky rule and in the marking at shift 0, share one model with a flag.
- `test_bgn` other than 0, more than one read group per write group, and `IO_SHIFT_DQS_EN_WHEN_SHIFT_DQS` 1.
- `EdgeSweep.Lane.Test`: stands for the register-driven test, and does not model a test whose outcome varies between calls or a bit whose passing skews are not an interval.
- Steps 1 to 5 of the DQS-enable search and its final VFIFO loop; a whole VFIFO cycle and one more tap are taken to fit a word.
- `Filter.FilterPixel`: leaves the conversion of a rounded sum that is no byte to an arbitrary function `cast`, because C does not define it.
- The filter of the two other copies of `filter.c`, which differ in the pixel type.
- The scratch array of `filter_pixel` shared by both threads of the simulator: each processor has its own here, as on the two real processors.
- Memory ordering weaker than one access at a time, and the printing of progress.
- A region of 0 pixels for the soft core, for which the progress print divides by zero.
- `hard_core_cpu/src/main.c` and `timer0_1ms_isr`, which never run their protocol.
- `AlarmRuns.RunEvents`: does not model starting an alarm that is active, which the code does not expect, or with a delay it cannot keep, for which `AlarmTime.StartedAlarmIsOnTimeIff` shows that the alarm is not on time.
- Alarm callbacks that start or stop alarms themselves; a callback is an arbitrary answer, and starting an alarm that is already listed is excluded as the code assumes.
- `alt_io_redirect`, device and file-system lookup, driver callbacks (arbitrary results) and the private pointer of a descriptor; a device is registered as a device or as a file system, not both. O_APPEND and O_NONBLOCK come from the C library, so the flag word is split into the bits the code names and the rest.
- The semaphores and the disabling of interrupts: each call is one atomic operation.
- Manual stepping of the decryption, whose button path has no test for the end of the image, and the decryption of width and height.
- `WallClock.ClockIsAffineIff`: does not model readings whose seconds leave 31 bits, before or after the carry of the microseconds, where the code overflows a signed word; rates that do not divide a million are covered by `WallClock.RateIsExactIff`.
- Format strings, `%c` and `%s`; the integer conversions take the settings a format string has collected.
