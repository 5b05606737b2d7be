/**
  The image pipeline as three processes that interleave over one shared header and one output buffer:
  the main thread, which decrypts and then waits; the soft core, which filters the pixels before
  `start`; and the hard core, which filters the rest.  One step is one access to shared memory.
*/
module Pipeline {
  import opened CArith
  import opened Filter

  datatype Config = Config(w: nat, h: nat, start: nat, image: seq<int>, cast: int -> int) {
    ghost predicate Valid() {
      0 < w && |image| == w * h && 0 < start <= |image|
    }

    function Full(): (full: seq<int>)
      requires Valid()
      ensures |full| == |image|
    {
      FilterImage(image, w, h, cast)
    }
  }

  /** Where each process is in its code. */
  datatype SoftPc = SoftIdle | SoftWrite(next: int, stop: int) | SoftExit
  datatype HardPc =
    | HardOff | HardGate | HardRead | HardDecide(unfiltered: int) | HardWrite(next: int, stop: int) | HardExit
  datatype MainPc = MainSetup | MainDecrypt | MainWait | MainSaved

  datatype State = State(
    decryptCount: int, decryptDone: bool, niosDone: bool, hpsDone: bool,
    softCount: int, softPc: SoftPc, softBatches: nat,
    hardCount: int, hardPc: HardPc,
    mainPc: MainPc, saved: seq<int>,
    out: seq<int>, writes: seq<nat>)

  function Init(c: Config): State
    requires c.Valid()
  {
    var n := |c.image|;
    State(0, false, false, false, 0, SoftIdle, 0, 0, HardOff, MainSetup, [], seq(n, _ => 0), seq(n, _ => 0))
  }

  // ----- the steps -----

  /** Filtering one pixel into the output, counting the writes to it. */
  function WritePixel(c: Config, s: State, i: int): State
    requires c.Valid()
  {
    if 0 <= i < |s.out| == |s.writes| == |c.image|
    then s.(out := s.out[i := c.Full()[i]], writes := s.writes[i := s.writes[i] + 1])
    else s
  }

  /** `timer_isr_soft_core`. */
  function SoftNext(c: Config, s: State): State
    requires c.Valid()
  {
    match s.softPc
    case SoftIdle =>
      var seen := s.decryptCount - s.softCount;
      var unfiltered := if s.softCount + seen > c.start then c.start - s.softCount else seen;
      var num := if unfiltered > 2 * c.w || unfiltered == c.start - s.softCount then unfiltered else 0;
      s.(softPc := SoftWrite(s.softCount, s.softCount + num))
    case SoftWrite(next, stop) =>
      if next < stop then WritePixel(c, s, next).(softPc := SoftWrite(next + 1, stop))
      else
        var t := s.(softCount := stop, softBatches := if stop > s.softCount then s.softBatches + 1 else s.softBatches);
        if stop == c.start then t.(niosDone := true, softPc := SoftExit) else t.(softPc := SoftIdle)
    case SoftExit => s
  }

  /** `proceso_periódico_hard_core`. */
  function HardNext(c: Config, s: State): State
    requires c.Valid()
  {
    match s.hardPc
    case HardOff => s
    case HardGate =>
      if s.decryptCount < c.start then s else s.(hardPc := HardRead)
    case HardRead =>
      var unfiltered := s.decryptCount - c.start - s.hardCount;
      s.(hardPc := HardDecide(if unfiltered < 0 then 0 else unfiltered))
    case HardDecide(unfiltered) =>
      var num := if unfiltered > 2 * c.w || s.decryptDone then unfiltered else 0;
      s.(hardPc := HardWrite(c.start + s.hardCount, c.start + s.hardCount + num))
    case HardWrite(next, stop) =>
      if next < stop then WritePixel(c, s, next).(hardPc := HardWrite(next + 1, stop))
      else
        var t := s.(hardCount := stop - c.start);
        if stop == c.w * c.h then t.(hpsDone := true, hardPc := HardExit) else t.(hardPc := HardGate)
    case HardExit => s
  }

  /** `main` after its initialisation, with `main_loop_soft_core`. */
  function MainNext(c: Config, s: State): State
    requires c.Valid()
  {
    match s.mainPc
    case MainSetup =>
      var t := s.(mainPc := MainDecrypt);
      if c.start < c.w * c.h then t.(hardPc := HardGate) else t.(hpsDone := true)
    case MainDecrypt =>
      if s.decryptCount != c.w * c.h then s.(decryptCount := s.decryptCount + 1)
      else s.(decryptDone := true, mainPc := MainWait)
    case MainWait =>
      if !s.niosDone || !s.hpsDone then s else s.(mainPc := MainSaved, saved := s.out)
    case MainSaved => s
  }

  datatype Process = Main | Soft | Hard

  function Next(c: Config, s: State, p: Process): State
    requires c.Valid()
  {
    match p
    case Main => MainNext(c, s)
    case Soft => SoftNext(c, s)
    case Hard => HardNext(c, s)
  }

  /** The state after an arbitrary interleaving. */
  function Run(c: Config, s: State, schedule: seq<Process>): State
    requires c.Valid()
    decreases |schedule|
  {
    if schedule == [] then s else Run(c, Next(c, s, schedule[0]), schedule[1..])
  }

  // ----- the invariant -----

  /** The first pixel each processor has not written yet. */
  function SoftFront(s: State): int {
    if s.softPc.SoftWrite? then s.softPc.next else s.softCount
  }

  function HardFront(c: Config, s: State): int {
    if s.hardPc.HardWrite? then s.hardPc.next else c.start + s.hardCount
  }

  ghost predicate SoftInv(c: Config, s: State) {
    && 0 <= s.softCount <= SoftFront(s) <= c.start
    && SoftFront(s) <= s.decryptCount
    && (s.softPc.SoftWrite? ==> SoftFront(s) <= s.softPc.stop <= c.start && s.softPc.stop <= s.decryptCount)
    && (s.softPc.SoftIdle? ==> s.softCount < c.start)
    && (s.softPc.SoftExit? ==> s.softCount == c.start)
    && (s.niosDone <==> s.softPc.SoftExit?)
  }

  ghost predicate HardInv(c: Config, s: State) {
    && 0 <= s.hardCount && c.start + s.hardCount <= HardFront(c, s) <= |c.image|
    && (HardFront(c, s) == c.start || HardFront(c, s) <= s.decryptCount)
    && (s.hardPc.HardOff? ==> s.hardCount == 0)
    && (s.hardPc.HardGate? ==> c.start + s.hardCount < |c.image|)
    && (s.hardPc.HardRead? ==> c.start + s.hardCount <= s.decryptCount && c.start + s.hardCount < |c.image|)
    && (s.hardPc.HardDecide? ==>
          && 0 <= s.hardPc.unfiltered && c.start + s.hardCount + s.hardPc.unfiltered <= s.decryptCount
          && c.start + s.hardCount < |c.image|)
    && (s.hardPc.HardWrite? ==> HardFront(c, s) <= s.hardPc.stop <= s.decryptCount)
    && (s.hardPc.HardExit? ==> c.start + s.hardCount == |c.image|)
    && (s.hpsDone <==> s.hardPc.HardExit? || (c.start == |c.image| && s.mainPc != MainSetup))
    && (s.hardPc.HardOff? <==> s.mainPc == MainSetup || c.start == |c.image|)
  }

  ghost predicate MainInv(c: Config, s: State)
    requires c.Valid()
  {
    && 0 <= s.decryptCount <= |c.image|
    && (s.decryptDone <==> s.mainPc == MainWait || s.mainPc == MainSaved)
    && (s.decryptDone ==> s.decryptCount == |c.image|)
    && (s.mainPc == MainSaved ==> s.niosDone && s.hpsDone && s.saved == c.Full())
  }

  /** A pixel has been written, by the processor it belongs to. */
  ghost predicate IsWritten(c: Config, s: State, i: int) {
    i < SoftFront(s) || c.start <= i < HardFront(c, s)
  }

  /** Every pixel behind a front has been written exactly once, with its final value; no other has. */
  ghost predicate OutInv(c: Config, s: State)
    requires c.Valid()
  {
    && |s.out| == |s.writes| == |c.image|
    && forall i :: 0 <= i < |c.image| ==>
         if IsWritten(c, s, i) then s.writes[i] == 1 && s.out[i] == c.Full()[i] else s.writes[i] == 0
  }

  /** Every soft batch that is not empty, except one that ends at `start`, takes more than two rows; so does
      every hard batch that is not empty, unless decryption has finished. */
  ghost predicate BatchInv(c: Config, s: State) {
    && (s.softPc.SoftWrite? ==>
          s.softPc.stop == s.softCount || s.softPc.stop - s.softCount > 2 * c.w || s.softPc.stop == c.start)
    && (s.hardPc.HardWrite? ==>
          s.hardPc.stop == c.start + s.hardCount || s.hardPc.stop - c.start - s.hardCount > 2 * c.w || s.decryptDone)
    && BatchesFit(s.softBatches, s.softPc.SoftExit?, s.softCount, c.start, c.w)
  }

  /** So many batches of more than two rows fit into the pixels filtered so far; the last may be shorter. */
  ghost predicate BatchesFit(batches: int, exited: bool, count: int, start: int, w: nat) {
    if exited then (batches - 1) * (2 * w + 1) < start else batches * (2 * w + 1) <= count
  }

  ghost predicate Inv(c: Config, s: State)
    requires c.Valid()
  {
    SoftInv(c, s) && HardInv(c, s) && MainInv(c, s) && OutInv(c, s) && BatchInv(c, s)
  }

  lemma InitInv(c: Config)
    requires c.Valid()
    ensures Inv(c, Init(c))
  {
  }

  /** Writing the pixel at a processor's front moves the front past it. */
  lemma WriteKeepsOut(c: Config, s: State, t: State, i: int)
    requires c.Valid() && OutInv(c, s)
    requires 0 <= i < |c.image| && !IsWritten(c, s, i)
    requires t.out == WritePixel(c, s, i).out && t.writes == WritePixel(c, s, i).writes
    requires forall k :: 0 <= k < |c.image| ==> (IsWritten(c, t, k) <==> IsWritten(c, s, k) || k == i)
    ensures OutInv(c, t)
  {
  }

  lemma SameFrontsKeepOut(c: Config, s: State, t: State)
    requires c.Valid() && OutInv(c, s)
    requires t.out == s.out && t.writes == s.writes
    requires SoftFront(t) == SoftFront(s) && HardFront(c, t) == HardFront(c, s)
    ensures OutInv(c, t)
  {
    assert forall k :: IsWritten(c, t, k) <==> IsWritten(c, s, k);
  }

  lemma SoftKeepsOut(c: Config, s: State)
    requires c.Valid() && SoftInv(c, s) && OutInv(c, s)
    ensures OutInv(c, SoftNext(c, s))
  {
    var t := SoftNext(c, s);
    if s.softPc.SoftWrite? && s.softPc.next < s.softPc.stop {
      WriteKeepsOut(c, s, t, s.softPc.next);
    } else {
      SameFrontsKeepOut(c, s, t);
    }
  }

  lemma SoftKeepsCounts(c: Config, s: State)
    requires c.Valid() && SoftInv(c, s) && MainInv(c, s)
    ensures SoftInv(c, SoftNext(c, s))
  {
  }

  lemma BatchesStillFit(batches: nat, count: int, stop: int, start: int, w: nat)
    requires BatchesFit(batches, false, count, start, w) && count <= stop <= start
    requires stop == count || stop - count > 2 * w || stop == start
    ensures BatchesFit(if stop > count then batches + 1 else batches, stop == start, stop, start, w)
  {
    assert (batches + 1) * (2 * w + 1) == batches * (2 * w + 1) + (2 * w + 1);
    assert (batches - 1) * (2 * w + 1) == batches * (2 * w + 1) - (2 * w + 1);
  }

  lemma SoftKeepsBatches(c: Config, s: State)
    requires c.Valid() && SoftInv(c, s) && BatchInv(c, s)
    ensures BatchInv(c, SoftNext(c, s))
  {
    if s.softPc.SoftWrite? {
      BatchesStillFit(s.softBatches, s.softCount, s.softPc.stop, c.start, c.w);
    }
  }

  lemma SoftKeepsOthers(c: Config, s: State)
    requires c.Valid() && HardInv(c, s) && MainInv(c, s) && SoftInv(c, s)
    ensures HardInv(c, SoftNext(c, s)) && MainInv(c, SoftNext(c, s))
  {
  }

  lemma SoftKeeps(c: Config, s: State)
    requires c.Valid() && Inv(c, s)
    ensures Inv(c, SoftNext(c, s))
  {
    SoftKeepsOut(c, s);
    SoftKeepsCounts(c, s);
    SoftKeepsBatches(c, s);
    SoftKeepsOthers(c, s);
  }

  lemma HardKeepsOut(c: Config, s: State)
    requires c.Valid() && SoftInv(c, s) && HardInv(c, s) && MainInv(c, s) && OutInv(c, s)
    ensures OutInv(c, HardNext(c, s))
  {
    var t := HardNext(c, s);
    if s.hardPc.HardWrite? && s.hardPc.next < s.hardPc.stop {
      WriteKeepsOut(c, s, t, s.hardPc.next);
    } else {
      SameFrontsKeepOut(c, s, t);
    }
  }

  lemma HardKeepsCounts(c: Config, s: State)
    requires c.Valid() && HardInv(c, s) && MainInv(c, s)
    ensures HardInv(c, HardNext(c, s))
  {
  }

  lemma HardKeepsOthers(c: Config, s: State)
    requires c.Valid() && SoftInv(c, s) && HardInv(c, s) && MainInv(c, s)
    ensures SoftInv(c, HardNext(c, s)) && MainInv(c, HardNext(c, s))
  {
  }

  lemma HardKeepsBatches(c: Config, s: State)
    requires c.Valid() && HardInv(c, s) && BatchInv(c, s)
    ensures BatchInv(c, HardNext(c, s))
  {
  }

  lemma HardKeeps(c: Config, s: State)
    requires c.Valid() && Inv(c, s)
    ensures Inv(c, HardNext(c, s))
  {
    HardKeepsOut(c, s);
    HardKeepsCounts(c, s);
    HardKeepsBatches(c, s);
    HardKeepsOthers(c, s);
  }

  /** When both flags are set, every pixel is behind a front. */
  lemma BothDoneMeansAllWritten(c: Config, s: State)
    requires c.Valid() && SoftInv(c, s) && HardInv(c, s) && OutInv(c, s)
    requires s.niosDone && s.hpsDone
    ensures s.out == c.Full() && forall i :: 0 <= i < |s.writes| ==> s.writes[i] == 1
  {
    assert forall i :: 0 <= i < |c.image| ==> IsWritten(c, s, i);
  }

  lemma MainKeepsControl(c: Config, s: State)
    requires c.Valid() && Inv(c, s)
    ensures MainInv(c, MainNext(c, s))
  {
    if s.niosDone && s.hpsDone {
      BothDoneMeansAllWritten(c, s);
    }
  }

  lemma MainKeepsOthers(c: Config, s: State)
    requires c.Valid() && SoftInv(c, s) && HardInv(c, s) && MainInv(c, s) && BatchInv(c, s)
    ensures SoftInv(c, MainNext(c, s)) && HardInv(c, MainNext(c, s)) && BatchInv(c, MainNext(c, s))
  {
  }

  lemma MainKeeps(c: Config, s: State)
    requires c.Valid() && Inv(c, s)
    ensures Inv(c, MainNext(c, s))
  {
    SameFrontsKeepOut(c, s, MainNext(c, s));
    MainKeepsControl(c, s);
    MainKeepsOthers(c, s);
  }

  // ----- safety over every interleaving -----

  lemma NextKeeps(c: Config, s: State, p: Process)
    requires c.Valid() && Inv(c, s)
    ensures Inv(c, Next(c, s, p))
  {
    match p
    case Main => MainKeeps(c, s);
    case Soft => SoftKeeps(c, s);
    case Hard => HardKeeps(c, s);
  }

  lemma {:induction false} RunKeeps(c: Config, s: State, schedule: seq<Process>)
    requires c.Valid() && Inv(c, s)
    ensures Inv(c, Run(c, s, schedule))
    decreases |schedule|
  {
    if schedule != [] {
      NextKeeps(c, s, schedule[0]);
      RunKeeps(c, Next(c, s, schedule[0]), schedule[1..]);
    }
  }

  /** Safety.  Whatever the interleaving: neither processor runs past the decryption frontier or out of
      its own region, no pixel is written twice, and once both flags are set every pixel has been written
      exactly once and the output, also as saved by the main thread, is the filter of the whole image. */
  lemma EveryRunIsSafe(c: Config, schedule: seq<Process>)
    requires c.Valid()
    ensures var s := Run(c, Init(c), schedule);
            && |s.out| == |s.writes| == |c.image|
            && 0 <= SoftFront(s) <= Min(c.start, s.decryptCount)
            && c.start <= HardFront(c, s) <= |c.image|
            && (HardFront(c, s) == c.start || HardFront(c, s) <= s.decryptCount)
            && (forall i :: 0 <= i < |s.writes| ==> s.writes[i] <= 1)
            && (forall i :: 0 <= i < |s.writes| && s.writes[i] == 1 ==> s.out[i] == c.Full()[i])
            && (s.niosDone && s.hpsDone ==>
                  s.out == c.Full() && forall i :: 0 <= i < |s.writes| ==> s.writes[i] == 1)
            && (s.mainPc == MainSaved ==> s.saved == c.Full())
  {
    InitInv(c);
    RunKeeps(c, Init(c), schedule);
    var s := Run(c, Init(c), schedule);
    if s.niosDone && s.hpsDone {
      BothDoneMeansAllWritten(c, s);
    }
  }

  /** Every pixel of the saved image is the byte nearest to the weighted sum of its neighbourhood. */
  lemma SavedImageIsNearest(c: Config, schedule: seq<Process>, i: nat)
    requires c.Valid() && i < |c.image| && Run(c, Init(c), schedule).mainPc == MainSaved
    ensures var saved := Run(c, Init(c), schedule).saved;
            && |saved| == |c.image|
            && IsNearestByte(saved[i], NineTermSum(Neighbourhood(c.image, i, c.w, c.h)))
            && ((forall k :: 0 <= k < 9 ==> Neighbourhood(c.image, i, c.w, c.h)[k] == c.image[i]) ==> saved[i] == 0)
  {
    EveryRunIsSafe(c, schedule);
    OutputIsNearestByte(c.image, i, c.w, c.h, c.cast);
    if forall k :: 0 <= k < 9 ==> Neighbourhood(c.image, i, c.w, c.h)[k] == c.image[i] {
      FlatPatchBecomesZero(c.image, i, c.w, c.h, c.cast);
    }
  }

  /** No processor starts a batch of up to two rows while more pixels are to come. */
  lemma BatchesAreWorthTheirWhile(c: Config, schedule: seq<Process>)
    requires c.Valid()
    ensures var s := Run(c, Init(c), schedule);
            && (s.softPc.SoftWrite? && s.softCount < s.softPc.stop < c.start ==> s.softPc.stop - s.softCount > 2 * c.w)
            && (s.hardPc.HardWrite? && c.start + s.hardCount < s.hardPc.stop && !s.decryptDone ==>
                  s.hardPc.stop - c.start - s.hardCount > 2 * c.w)
  {
    InitInv(c);
    RunKeeps(c, Init(c), schedule);
  }

  /** The number of soft batches that are not empty is bounded by the rows they must cover. */
  lemma SoftBatchesAreFew(c: Config, schedule: seq<Process>)
    requires c.Valid()
    ensures Run(c, Init(c), schedule).softBatches <= c.start / (2 * c.w + 1) + 1
  {
    InitInv(c);
    RunKeeps(c, Init(c), schedule);
    var s := Run(c, Init(c), schedule);
    var rows := 2 * c.w + 1;
    var full := if s.softPc.SoftExit? then s.softBatches - 1 else s.softBatches;
    assert full * rows <= c.start;
    QuotientBound(full, rows, c.start);
  }

  lemma QuotientBound(a: int, b: nat, c: nat)
    requires 0 < b && a * b <= c
    ensures a <= c / b
  {
    var q := c / b;
    assert (q + 1) * b == q * b + b;
    if a > q {
      MulKeepsOrder(q + 1, a, b);
    }
  }

  /** The batches are not settled against a decryptor that works in place: a soft batch that stops at the
      decryption frontier, short of the end of the image, ends with a pixel that reads undecrypted input. */
  lemma SoftBatchReadsBeyondFrontier(c: Config, s: State)
    requires c.Valid() && Inv(c, s) && s.softPc.SoftIdle? && SoftNext(c, s).softPc.stop > s.softCount
    ensures var stop := SoftNext(c, s).softPc.stop;
            stop == Min(c.start, s.decryptCount) && (stop < |c.image| ==> Furthest(stop - 1, c.w, c.h) >= stop)
  {
    var stop := SoftNext(c, s).softPc.stop;
    if stop < |c.image| {
      FurthestIsAhead(stop - 1, c.w, c.h);
    }
  }

  /** The exact condition for a whole soft batch: it is settled against a decryptor that works in place when
      the furthest pixel it reads has been decrypted; surely at the end, never when it stops at the frontier. */
  lemma SoftBatchIsSettledIff(c: Config, s: State)
    requires c.Valid() && Inv(c, s) && 1 < |c.image|
    requires s.softPc.SoftIdle? && SoftNext(c, s).softPc.stop > s.softCount
    ensures var from, stop := s.softCount, SoftNext(c, s).softPc.stop;
            var settled := BatchIsSettled(c.image, from, stop, s.decryptCount, c.w, c.h);
            && (settled <==> LastRead(from, stop, c.w, c.h) < s.decryptCount)
            && (s.decryptCount == |c.image| ==> settled)
            && (stop == s.decryptCount < |c.image| ==> !settled)
  {
    BatchAtFrontier(c, s.softCount, SoftNext(c, s).softPc.stop, s.decryptCount);
  }

  /** The same for a batch of the hard core, when it is decided on. */
  lemma HardBatchIsSettledIff(c: Config, s: State)
    requires c.Valid() && Inv(c, s) && 1 < |c.image|
    requires s.hardPc.HardDecide? && HardNext(c, s).hardPc.stop > c.start + s.hardCount
    ensures var from, stop := c.start + s.hardCount, HardNext(c, s).hardPc.stop;
            var settled := BatchIsSettled(c.image, from, stop, s.decryptCount, c.w, c.h);
            && (settled <==> LastRead(from, stop, c.w, c.h) < s.decryptCount)
            && (s.decryptCount == |c.image| ==> settled)
            && (stop == s.decryptCount < |c.image| ==> !settled)
  {
    BatchAtFrontier(c, c.start + s.hardCount, HardNext(c, s).hardPc.stop, s.decryptCount);
  }

  lemma BatchAtFrontier(c: Config, from: nat, stop: nat, frontier: nat)
    requires c.Valid() && 1 < |c.image| && from < stop <= frontier <= |c.image|
    ensures var settled := BatchIsSettled(c.image, from, stop, frontier, c.w, c.h);
            && (settled <==> LastRead(from, stop, c.w, c.h) < frontier)
            && (frontier == |c.image| ==> settled)
            && (stop == frontier < |c.image| ==> !settled)
  {
    BatchIsSettledIff(c.image, from, stop, frontier, c.w, c.h);
    FurthestIsFurthest(8, stop - 1, c.w, c.h);
    if stop < |c.image| {
      FurthestIsAhead(stop - 1, c.w, c.h);
    }
  }
}
