/** Progress of the pipeline: every interleaving that keeps scheduling all three processes finishes. */
module PipelineProgress {
  import opened CArith
  import opened Pipeline

  /** The number of turns `p` gets in a schedule. */
  function Turns(p: Process, schedule: seq<Process>): nat {
    if schedule == [] then 0 else (if schedule[0] == p then 1 else 0) + Turns(p, schedule[1..])
  }

  /** The main thread's turns until decryption is finished. */
  function MainWork(c: Config, s: State): int {
    match s.mainPc
    case MainSetup => |c.image| - s.decryptCount + 2
    case MainDecrypt => |c.image| - s.decryptCount + 1
    case MainWait => 0
    case MainSaved => 0
  }

  /** A whole soft pass over the `left` pixels that remain: one read, the writes, one commit. */
  function SoftPass(left: int): int {
    if left == 0 then 0 else left + 2
  }

  /** The soft core's turns until its flag is set, once decryption is finished. */
  function SoftWork(c: Config, s: State): int {
    match s.softPc
    case SoftIdle => SoftPass(c.start - s.softCount)
    case SoftWrite(next, stop) => stop - next + 1 + SoftPass(c.start - stop)
    case SoftExit => 0
  }

  /** A whole hard pass: the gate, the read, the decision, the writes, one commit. */
  function HardPass(left: int): int {
    if left == 0 then 0 else left + 4
  }

  /** The hard core's turns until its flag is set, once decryption is finished. */
  function HardWork(c: Config, s: State): int {
    var left := |c.image| - c.start - s.hardCount;
    match s.hardPc
    case HardOff => 0
    case HardGate => HardPass(left)
    case HardRead => left + 3
    case HardDecide(unfiltered) => unfiltered + 2 + HardPass(left - unfiltered)
    case HardWrite(next, stop) => stop - next + 1 + HardPass(|c.image| - stop)
    case HardExit => 0
  }

  lemma WorkIsBounded(c: Config, s: State)
    requires c.Valid() && Inv(c, s)
    ensures 0 <= MainWork(c, s) <= |c.image| + 2
    ensures 0 <= SoftWork(c, s) <= c.start + 3
    ensures 0 <= HardWork(c, s) <= |c.image| - c.start + 6
  {
  }

  lemma MainWorks(c: Config, s: State, p: Process)
    requires c.Valid() && Inv(c, s)
    ensures MainWork(c, Next(c, s, p)) <= Max(0, MainWork(c, s) - if p == Main then 1 else 0)
  {
  }

  lemma SoftWorks(c: Config, s: State, p: Process)
    requires c.Valid() && Inv(c, s) && s.decryptDone
    ensures SoftWork(c, Next(c, s, p)) <= Max(0, SoftWork(c, s) - if p == Soft then 1 else 0)
  {
  }

  lemma HardWorks(c: Config, s: State, p: Process)
    requires c.Valid() && Inv(c, s) && s.decryptDone
    ensures HardWork(c, Next(c, s, p)) <= Max(0, HardWork(c, s) - if p == Hard then 1 else 0)
  {
  }

  lemma DoneStaysDone(c: Config, s: State, p: Process)
    requires c.Valid() && Inv(c, s) && s.decryptDone
    ensures Next(c, s, p).decryptDone
  {
  }

  /** Once the main thread has had its turns, decryption is finished, whatever the others did. */
  lemma {:induction false} DecryptionFinishes(c: Config, s: State, schedule: seq<Process>)
    requires c.Valid() && Inv(c, s) && MainWork(c, s) <= Turns(Main, schedule)
    ensures Inv(c, Run(c, s, schedule)) && Run(c, s, schedule).decryptDone
    decreases |schedule|
  {
    WorkIsBounded(c, s);
    if schedule != [] {
      var t := Next(c, s, schedule[0]);
      NextKeeps(c, s, schedule[0]);
      MainWorks(c, s, schedule[0]);
      DecryptionFinishes(c, t, schedule[1..]);
    }
  }

  /** Then, once each core has had the turns its pass needs, both flags are set. */
  lemma {:induction false} FilteringFinishes(c: Config, s: State, schedule: seq<Process>)
    requires c.Valid() && Inv(c, s) && s.decryptDone
    requires SoftWork(c, s) <= Turns(Soft, schedule) && HardWork(c, s) <= Turns(Hard, schedule)
    ensures var t := Run(c, s, schedule); Inv(c, t) && t.decryptDone && t.niosDone && t.hpsDone
    decreases |schedule|
  {
    WorkIsBounded(c, s);
    if schedule == [] {
      NoWorkMeansFlagsSet(c, s);
    } else {
      NextKeeps(c, s, schedule[0]);
      DoneStaysDone(c, s, schedule[0]);
      SoftWorks(c, s, schedule[0]);
      HardWorks(c, s, schedule[0]);
      FilteringFinishes(c, Next(c, s, schedule[0]), schedule[1..]);
    }
  }

  lemma NoWorkMeansFlagsSet(c: Config, s: State)
    requires c.Valid() && Inv(c, s) && s.decryptDone && SoftWork(c, s) <= 0 && HardWork(c, s) <= 0
    ensures s.niosDone && s.hpsDone
  {
  }

  lemma {:induction false} RunAppend(c: Config, s: State, a: seq<Process>, b: seq<Process>)
    requires c.Valid()
    ensures Run(c, s, a + b) == Run(c, Run(c, s, a), b)
    decreases |a|
  {
    if a == [] {
      assert a + b == b;
    } else {
      assert (a + b)[1..] == a[1..] + b;
      RunAppend(c, Next(c, s, a[0]), a[1..], b);
    }
  }

  /** Liveness.  From any reachable state, any interleaving that first gives the main thread one turn per
      pixel and two more, then each core the turns of one pass over its own region and a stale one, and
      then the main thread another turn, ends with the filtered image saved. */
  lemma EveryFairRunFinishes(c: Config, before: seq<Process>, a: seq<Process>, b: seq<Process>)
    requires c.Valid()
    requires Turns(Main, a) >= |c.image| + 2
    requires Turns(Soft, b) >= c.start + 3 && Turns(Hard, b) >= |c.image| - c.start + 6
    ensures var s := Run(c, Init(c), before + a + b + [Main]);
            s.mainPc == MainSaved && s.saved == c.Full()
  {
    InitInv(c);
    RunKeeps(c, Init(c), before);
    var s := Run(c, Init(c), before);
    WorkIsBounded(c, s);
    DecryptionFinishes(c, s, a);
    var t := Run(c, s, a);
    WorkIsBounded(c, t);
    FilteringFinishes(c, t, b);
    var u := Run(c, t, b);
    RunAppend(c, Init(c), before, a);
    RunAppend(c, Init(c), before + a, b);
    RunAppend(c, Init(c), before + a + b, [Main]);
    assert Run(c, u, [Main]) == MainNext(c, u) by {
      assert Run(c, MainNext(c, u), [Main][1..]) == MainNext(c, u);
    }
    NextKeeps(c, u, Main);
    SavedOnceBothDone(c, u);
  }

  lemma SavedOnceBothDone(c: Config, s: State)
    requires c.Valid() && Inv(c, s) && s.decryptDone && s.niosDone && s.hpsDone
    ensures MainNext(c, s).mainPc == MainSaved
  {
  }
}
