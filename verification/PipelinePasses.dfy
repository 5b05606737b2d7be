/**
  What one pass of a core achieves, in any interleaving: a core takes everything that waits as soon as
  more than two rows do, or nothing more is to come.
*/
module PipelinePasses {
  import opened CArith
  import opened Pipeline
  import opened PipelineProgress

  // ----- the soft core -----

  /** The rest of one soft pass that has made its read: the core writes until it commits in the last step. */
  ghost predicate SoftPassOf(c: Config, s: State, schedule: seq<Process>)
    requires c.Valid()
    decreases |schedule|
  {
    s.softPc.SoftWrite? && schedule != [] &&
    var t := Next(c, s, schedule[0]);
    if |schedule| == 1 then !t.softPc.SoftWrite? else SoftPassOf(c, t, schedule[1..])
  }

  lemma SoftWriteStep(c: Config, s: State, p: Process)
    requires c.Valid() && Inv(c, s) && s.softPc.SoftWrite?
    ensures var t := Next(c, s, p);
            if t.softPc.SoftWrite?
            then t.softPc.stop == s.softPc.stop && t.softCount == s.softCount && t.softBatches == s.softBatches
            else t.softCount == s.softPc.stop
                 && t.softBatches == s.softBatches + if s.softPc.stop > s.softCount then 1 else 0
  {
  }

  lemma {:induction false} SoftCommits(c: Config, s: State, schedule: seq<Process>)
    requires c.Valid() && Inv(c, s) && SoftPassOf(c, s, schedule)
    ensures var t := Run(c, s, schedule);
            && t.softCount == s.softPc.stop && !t.softPc.SoftWrite?
            && t.softBatches == s.softBatches + if s.softPc.stop > s.softCount then 1 else 0
    decreases |schedule|
  {
    SoftWriteStep(c, s, schedule[0]);
    NextKeeps(c, s, schedule[0]);
    var t := Next(c, s, schedule[0]);
    if |schedule| == 1 {
      assert schedule[1..] == [];
    } else {
      SoftCommits(c, t, schedule[1..]);
    }
  }

  /** A soft pass from any reachable state, whatever the others do meanwhile.  The frontier is what the core
      reads, cut to its region.  If more than two rows wait, or the region ends there, the pass leaves the
      count at the frontier; otherwise it leaves it as it was.  A pass that moves the count is one batch. */
  lemma SoftPassTakesWhatWaits(c: Config, s: State, schedule: seq<Process>)
    requires c.Valid() && Inv(c, s) && s.softPc.SoftIdle? && SoftPassOf(c, Next(c, s, Soft), schedule)
    ensures var t := Run(c, s, [Soft] + schedule);
            var frontier := if s.decryptCount < c.start then s.decryptCount else c.start;
            && (frontier - s.softCount > 2 * c.w || frontier == c.start ==> t.softCount == frontier)
            && (frontier - s.softCount <= 2 * c.w && frontier != c.start ==> t.softCount == s.softCount)
            && t.softBatches == s.softBatches + (if t.softCount > s.softCount then 1 else 0)
            && (t.softPc.SoftExit? <==> t.softCount == c.start)
  {
    NextKeeps(c, s, Soft);
    SoftCommits(c, Next(c, s, Soft), schedule);
    assert ([Soft] + schedule)[1..] == schedule;
    RunKeeps(c, s, [Soft] + schedule);
  }

  /** The soft core is on its way to having filtered everything before `goal`. */
  ghost predicate SoftHeads(c: Config, s: State, goal: int) {
    || s.softCount >= goal
    || (s.softPc.SoftIdle? && goal <= s.decryptCount && goal <= c.start
        && (goal - s.softCount > 2 * c.w || goal == c.start))
    || (s.softPc.SoftWrite? && s.softPc.stop >= goal)
  }

  /** The turns of the soft core until then. */
  function SoftTurnsTo(c: Config, s: State, goal: int): int {
    if s.softCount >= goal then 0
    else if s.softPc.SoftIdle? then c.start - s.softCount + 2
    else if s.softPc.SoftWrite? then s.softPc.stop - s.softPc.next + 1
    else 0
  }

  lemma SoftHeadsOn(c: Config, s: State, p: Process, goal: int)
    requires c.Valid() && SoftInv(c, s) && MainInv(c, s) && SoftHeads(c, s, goal)
    ensures SoftHeads(c, Next(c, s, p), goal)
    ensures SoftTurnsTo(c, Next(c, s, p), goal) <= Max(0, SoftTurnsTo(c, s, goal) - if p == Soft then 1 else 0)
    ensures SoftTurnsTo(c, s, goal) <= 0 ==> s.softCount >= goal
  {
  }

  lemma {:induction false} SoftArrives(c: Config, s: State, schedule: seq<Process>, goal: int)
    requires c.Valid() && Inv(c, s) && SoftHeads(c, s, goal) && SoftTurnsTo(c, s, goal) <= Turns(Soft, schedule)
    ensures Run(c, s, schedule).softCount >= goal
    decreases |schedule|
  {
    if schedule == [] {
      SoftHeadsOn(c, s, Soft, goal);
    } else {
      SoftHeadsOn(c, s, schedule[0], goal);
      NextKeeps(c, s, schedule[0]);
      SoftArrives(c, Next(c, s, schedule[0]), schedule[1..], goal);
    }
  }

  /** Filtering overlaps decryption: once more than two rows wait for the idle soft core, a bounded number
      of its turns takes them all, even if no further pixel is ever decrypted. */
  lemma SoftCatchesUp(c: Config, s: State, schedule: seq<Process>)
    requires c.Valid() && Inv(c, s) && s.softPc.SoftIdle?
    requires Min(s.decryptCount, c.start) - s.softCount > 2 * c.w || s.decryptCount >= c.start
    requires Turns(Soft, schedule) >= c.start - s.softCount + 2
    ensures Run(c, s, schedule).softCount >= Min(s.decryptCount, c.start)
  {
    SoftArrives(c, s, schedule, Min(s.decryptCount, c.start));
  }

  // ----- the hard core -----

  /** The gate opens exactly when the hard core's region has been reached. */
  lemma HardGateOpensIff(c: Config, s: State)
    requires c.Valid() && s.hardPc.HardGate?
    ensures if s.decryptCount >= c.start then Next(c, s, Hard) == s.(hardPc := HardRead) else Next(c, s, Hard) == s
  {
  }

  /** The rest of one hard pass that has decided: the core writes until it commits in the last step. */
  ghost predicate HardPassOf(c: Config, s: State, schedule: seq<Process>)
    requires c.Valid()
    decreases |schedule|
  {
    s.hardPc.HardWrite? && schedule != [] &&
    var t := Next(c, s, schedule[0]);
    if |schedule| == 1 then !t.hardPc.HardWrite? else HardPassOf(c, t, schedule[1..])
  }

  lemma HardWriteStep(c: Config, s: State, p: Process)
    requires c.Valid() && Inv(c, s) && s.hardPc.HardWrite?
    ensures var t := Next(c, s, p);
            if t.hardPc.HardWrite?
            then t.hardPc.stop == s.hardPc.stop && t.hardCount == s.hardCount
            else c.start + t.hardCount == s.hardPc.stop
  {
  }

  lemma {:induction false} HardCommits(c: Config, s: State, schedule: seq<Process>)
    requires c.Valid() && Inv(c, s) && HardPassOf(c, s, schedule)
    ensures c.start + Run(c, s, schedule).hardCount == s.hardPc.stop && !Run(c, s, schedule).hardPc.HardWrite?
    decreases |schedule|
  {
    HardWriteStep(c, s, schedule[0]);
    NextKeeps(c, s, schedule[0]);
    var t := Next(c, s, schedule[0]);
    if |schedule| == 1 {
      assert schedule[1..] == [];
    } else {
      HardCommits(c, t, schedule[1..]);
    }
  }

  lemma OtherLeavesHard(c: Config, s: State, p: Process)
    requires c.Valid() && HardInv(c, s) && p != Hard && !s.hardPc.HardOff?
    ensures var t := Next(c, s, p);
            t.hardPc == s.hardPc && t.hardCount == s.hardCount && s.decryptCount <= t.decryptCount
  {
  }

  /** Between two steps of the hard core nobody moves it. */
  lemma {:induction false} OthersLeaveHard(c: Config, s: State, schedule: seq<Process>)
    requires c.Valid() && Inv(c, s) && Turns(Hard, schedule) == 0 && !s.hardPc.HardOff?
    ensures var t := Run(c, s, schedule); Inv(c, t) && t.hardPc == s.hardPc && t.hardCount == s.hardCount
    decreases |schedule|
  {
    if schedule != [] {
      OtherLeavesHard(c, s, schedule[0]);
      NextKeeps(c, s, schedule[0]);
      OthersLeaveHard(c, Next(c, s, schedule[0]), schedule[1..]);
    }
  }

  /** A hard pass that has opened the gate.  The frontier is what the core reads first; later it reads whether
      decryption is done.  If more than two rows wait, or decryption is done, the pass leaves the count at the
      frontier; otherwise it leaves it as it was. */
  lemma HardPassTakesWhatWaits(c: Config, s: State, others: seq<Process>, schedule: seq<Process>)
    requires c.Valid() && Inv(c, s) && s.hardPc.HardRead? && Turns(Hard, others) == 0
    requires HardPassOf(c, Next(c, Run(c, Next(c, s, Hard), others), Hard), schedule)
    ensures var d := Run(c, Next(c, s, Hard), others);
            var t := Run(c, Next(c, d, Hard), schedule);
            var waiting := s.decryptCount - (c.start + s.hardCount);
            && (waiting > 2 * c.w || d.decryptDone ==> c.start + t.hardCount == s.decryptCount)
            && (waiting <= 2 * c.w && !d.decryptDone ==> t.hardCount == s.hardCount)
            && (t.hardPc.HardExit? <==> c.start + t.hardCount == c.w * c.h)
  {
    NextKeeps(c, s, Hard);
    OthersLeaveHard(c, Next(c, s, Hard), others);
    var d := Run(c, Next(c, s, Hard), others);
    NextKeeps(c, d, Hard);
    HardCommits(c, Next(c, d, Hard), schedule);
    RunKeeps(c, Next(c, d, Hard), schedule);
  }

  /** The hard core is on its way to having filtered everything before `goal`. */
  ghost predicate HardHeads(c: Config, s: State, goal: int) {
    || c.start + s.hardCount >= goal
    || ((s.hardPc.HardGate? || s.hardPc.HardRead?) && goal <= s.decryptCount && c.start <= goal
        && goal - c.start - s.hardCount > 2 * c.w)
    || (s.hardPc.HardDecide? && c.start + s.hardCount + s.hardPc.unfiltered >= goal && s.hardPc.unfiltered > 2 * c.w)
    || (s.hardPc.HardWrite? && s.hardPc.stop >= goal)
  }

  function HardTurnsTo(c: Config, s: State, goal: int): int {
    if c.start + s.hardCount >= goal then 0
    else
      match s.hardPc
      case HardOff => 0
      case HardGate => |c.image| - c.start - s.hardCount + 4
      case HardRead => |c.image| - c.start - s.hardCount + 3
      case HardDecide(unfiltered) => unfiltered + 2
      case HardWrite(next, stop) => stop - next + 1
      case HardExit => 0
  }

  lemma HardHeadsOn(c: Config, s: State, p: Process, goal: int)
    requires c.Valid() && HardInv(c, s) && MainInv(c, s) && HardHeads(c, s, goal)
    ensures HardHeads(c, Next(c, s, p), goal)
    ensures HardTurnsTo(c, Next(c, s, p), goal) <= Max(0, HardTurnsTo(c, s, goal) - if p == Hard then 1 else 0)
    ensures HardTurnsTo(c, s, goal) <= 0 ==> c.start + s.hardCount >= goal
  {
    if p == Hard {
      HardHeadsOnItself(c, s, goal);
    } else if !s.hardPc.HardOff? {
      OtherLeavesHard(c, s, p);
    }
  }

  lemma HardHeadsOnItself(c: Config, s: State, goal: int)
    requires c.Valid() && HardInv(c, s) && MainInv(c, s) && HardHeads(c, s, goal)
    ensures HardHeads(c, HardNext(c, s), goal)
    ensures HardTurnsTo(c, HardNext(c, s), goal) <= Max(0, HardTurnsTo(c, s, goal) - 1)
  {
  }

  lemma {:induction false} HardArrives(c: Config, s: State, schedule: seq<Process>, goal: int)
    requires c.Valid() && Inv(c, s) && HardHeads(c, s, goal) && HardTurnsTo(c, s, goal) <= Turns(Hard, schedule)
    ensures c.start + Run(c, s, schedule).hardCount >= goal
    decreases |schedule|
  {
    if schedule == [] {
      HardHeadsOn(c, s, Hard, goal);
    } else {
      HardHeadsOn(c, s, schedule[0], goal);
      NextKeeps(c, s, schedule[0]);
      HardArrives(c, Next(c, s, schedule[0]), schedule[1..], goal);
    }
  }

  /** The same for the hard core at its gate. */
  lemma HardCatchesUp(c: Config, s: State, schedule: seq<Process>)
    requires c.Valid() && Inv(c, s) && s.hardPc.HardGate?
    requires s.decryptCount - (c.start + s.hardCount) > 2 * c.w
    requires Turns(Hard, schedule) >= |c.image| - c.start - s.hardCount + 4
    ensures c.start + Run(c, s, schedule).hardCount >= s.decryptCount
  {
    HardArrives(c, s, schedule, s.decryptCount);
  }
}
