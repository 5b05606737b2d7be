/**
  Alarm times on a wrapping clock.  The tick counter and the alarm times are 32-bit words; a rollover
  flag says that an alarm belongs to the counter's next lap.  Time itself is unbounded: `now` counts all
  ticks since reset and `due` is the tick at which an alarm is to fire.
*/
module AlarmTime {
  import opened CArith

  datatype Timer = Timer(time: int, rollover: bool)

  /** `alt_alarm_start`: arm for `nticks + 1` ticks from the counter value `count`. */
  function Arm(nticks: int, count: int): Timer {
    var time := U32(nticks + count + 1);
    Timer(time, time < count)
  }

  /** The first part of a visit by `alt_tick`: a counter that has just wrapped clears the flag. */
  function Unroll(t: Timer, count: int): Timer {
    if t.rollover && count == 0 then t.(rollover := false) else t
  }

  predicate Expired(t: Timer, count: int) {
    t.time <= count && !t.rollover
  }

  /** Re-arming after a callback that asked for `delay` more ticks. */
  function Rearm(t: Timer, delay: int, count: int): Timer {
    var time := U32(t.time + delay);
    Timer(time, if time < count then true else t.rollover)
  }

  /** Between two ticks, a timer stands for an alarm that is due less than one lap ahead, or a whole lap
      ahead if the counter is about to wrap. */
  ghost predicate Represents(t: Timer, due: int, now: int) {
    && now < due && (due < now + TWO32 || (due == now + TWO32 && U32(now) == TWO32 - 1))
    && t.time == U32(due)
    && (t.rollover <==> U32(due) < U32(now))
  }

  lemma WordStep(now: int)
    requires 0 <= now
    ensures U32(now + 1) == if U32(now) == TWO32 - 1 then 0 else U32(now) + 1
  {
  }

  lemma WordSum(now: int, delay: int)
    requires 0 <= now && 0 <= delay <= TWO32
    ensures U32(now + delay) == if U32(now) + delay < TWO32 then U32(now) + delay else U32(now) + delay - TWO32
  {
  }

  lemma WordOfWord(now: int, delay: int)
    ensures U32(U32(now) + delay) == U32(now + delay)
  {
  }

  /** The delays that `alt_alarm_start` can keep: all but the largest word, and that one too on the last
      tick of a lap. */
  predicate CanKeep(nticks: int, now: int) {
    nticks <= TWO32 - 2 || U32(now) == TWO32 - 1
  }

  /** Arming for such a delay is right. */
  lemma ArmIsExact(nticks: int, now: int)
    requires 0 <= now && 0 <= nticks < TWO32
    ensures Represents(Arm(nticks, U32(now)), now + nticks + 1, now) <==> CanKeep(nticks, now)
  {
    WordOfWord(now, nticks + 1);
    if nticks <= TWO32 - 2 {
      WordSum(now, nticks + 1);
      assert U32(nticks + U32(now) + 1) == U32(now + nticks + 1);
    }
  }

  /** The largest delay fires on the next tick unless the counter wraps there, a whole lap early. */
  lemma MaximalDelayFiresAtOnce(now: int)
    requires 0 <= now && U32(now) < TWO32 - 1
    ensures Expired(Unroll(Arm(TWO32 - 1, U32(now)), U32(now + 1)), U32(now + 1))
  {
    WordStep(now);
    assert U32(TWO32 - 1 + U32(now) + 1) == U32(now);
  }

  /** A tick expires a timer exactly when unbounded time reaches its due tick. */
  lemma TickIsExact(t: Timer, due: int, now: int)
    requires 0 <= now && Represents(t, due, now)
    ensures Expired(Unroll(t, U32(now + 1)), U32(now + 1)) <==> due == now + 1
    ensures due != now + 1 ==> Represents(Unroll(t, U32(now + 1)), due, now + 1)
    ensures due == now + 1 ==> Unroll(t, U32(now + 1)) == Timer(U32(now + 1), false)
  {
    WordStep(now);
    WordSum(now, due - now);
    WordSum(now + 1, due - (now + 1));
  }

  /** Re-arming by any nonzero word is right. */
  lemma RearmIsExact(delay: int, now: int)
    requires 0 <= now && 0 < delay < TWO32
    ensures Represents(Rearm(Timer(U32(now), false), delay, U32(now)), now + delay, now)
  {
    WordOfWord(now, delay);
    WordSum(now, delay);
  }

  // ----- whole runs -----

  /** The ticks in `now + 1..now + k` at which the code fires one alarm, when its callback answers with
      the elements of `answers` in turn; a zero, or the end of the answers, deactivates it. */
  function Firings(t: Timer, now: int, k: nat, answers: seq<int>): seq<int>
    decreases k
  {
    if k == 0 then []
    else
      var count := U32(now + 1);
      var u := Unroll(t, count);
      if !Expired(u, count) then Firings(u, now + 1, k - 1, answers)
      else if answers == [] || answers[0] == 0 then [now + 1]
      else [now + 1] + Firings(Rearm(u, answers[0], count), now + 1, k - 1, answers[1..])
  }

  /** The ticks up to `last` at which the alarm ought to fire. */
  function DueTicks(due: int, last: int, answers: seq<int>): seq<int>
    decreases |answers|
  {
    if due > last then []
    else if answers == [] || answers[0] == 0 then [due]
    else [due] + DueTicks(due + answers[0], last, answers[1..])
  }

  ghost predicate AreWords(answers: seq<int>) {
    forall i :: 0 <= i < |answers| ==> 0 <= answers[i] < TWO32
  }

  /** For any answers and any number of counter laps, an alarm fires at its due ticks and at no others. */
  lemma {:induction false} FiringsAreExact(t: Timer, due: int, now: int, k: nat, answers: seq<int>)
    requires 0 <= now && Represents(t, due, now)
    requires AreWords(answers)
    ensures Firings(t, now, k, answers) == DueTicks(due, now + k, answers)
    decreases k
  {
    if k > 0 {
      TickIsExact(t, due, now);
      var u := Unroll(t, U32(now + 1));
      if due != now + 1 {
        FiringsAreExact(u, due, now + 1, k - 1, answers);
      } else if answers != [] && answers[0] != 0 {
        RearmIsExact(answers[0], now + 1);
        FiringsAreExact(Rearm(u, answers[0], U32(now + 1)), due + answers[0], now + 1, k - 1, answers[1..]);
      }
    }
  }

  /** Whatever its callback answers, the alarm fires at its due ticks and at no others, for ever. */
  ghost predicate OnTime(t: Timer, due: int, now: int) {
    forall k: nat, answers: seq<int> | AreWords(answers) ::
      Firings(t, now, k, answers) == DueTicks(due, now + k, answers)
  }

  /** An alarm started at time `now` is on time for ever, first at `now + nticks + 1`, if and only if the
      delay is one the code can keep. */
  lemma StartedAlarmIsOnTimeIff(nticks: int, now: int)
    requires 0 <= now && 0 <= nticks < TWO32
    ensures OnTime(Arm(nticks, U32(now)), now + nticks + 1, now) <==> CanKeep(nticks, now)
  {
    var t := Arm(nticks, U32(now));
    if CanKeep(nticks, now) {
      ArmIsExact(nticks, now);
      forall k: nat, answers: seq<int> | AreWords(answers)
        ensures Firings(t, now, k, answers) == DueTicks(now + nticks + 1, now + k, answers)
      {
        FiringsAreExact(t, now + nticks + 1, now, k, answers);
      }
    } else {
      MaximalDelayFiresAtOnce(now);
      assert Firings(t, now, 1, []) == [now + 1];
      assert DueTicks(now + nticks + 1, now + 1, []) == [];
      assert AreWords([]);
    }
  }
}
