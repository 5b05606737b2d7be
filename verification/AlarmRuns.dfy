/**
  Whole runs of the alarm list: alarms are started, stopped and ticked in any order, and every alarm is
  called at its due ticks and at no others.  What is due is said for one alarm at a time, without the
  counter, the ring or the other alarms.
*/
module AlarmRuns {
  import opened Options
  import opened CArith
  import opened AlarmTime
  import opened AlarmList

  /** The answers every alarm's callback has yet to give, in turn; without one it answers zero. */
  type Script = map<Alarm, seq<int>>

  datatype Event = Start(alarm: Alarm, delay: int) | Stop(alarm: Alarm) | Tick

  // ----- what ought to happen to one alarm -----

  /** The tick one alarm is due at, if it is active, and the answers its callback has yet to give. */
  datatype Standing = Standing(due: Option<int>, answers: seq<int>)

  function FirstAnswer(answers: seq<int>): int {
    if answers == [] then 0 else answers[0]
  }

  /** What an event at time `now` makes of one alarm. */
  ghost function After(a: Alarm, s: Standing, now: int, e: Event): Standing {
    match e
    case Start(b, delay) => if b == a then s.(due := Some(now + delay + 1)) else s
    case Stop(b) => if b == a then s.(due := None) else s
    case Tick => AfterTick(s, now + 1)
  }

  ghost function AfterTick(s: Standing, tick: int): Standing {
    if s.due != Some(tick) then s
    else
      var answer := FirstAnswer(s.answers);
      Standing(if answer == 0 then None else Some(tick + answer), if s.answers == [] then [] else s.answers[1..])
  }

  function TimeAfter(now: int, e: Event): int {
    if e.Tick? then now + 1 else now
  }

  /** The number of ticks in a run of events. */
  function Duration(events: seq<Event>): nat {
    if events == [] then 0 else (if events[0].Tick? then 1 else 0) + Duration(events[1..])
  }

  /** The ticks at which one alarm ought to be called in a run of events. */
  ghost function Expected(a: Alarm, s: Standing, now: int, events: seq<Event>): seq<int>
    decreases |events|
  {
    if events == [] then []
    else
      var e := events[0];
      (if e.Tick? && s.due == Some(now + 1) then [now + 1] else [])
        + Expected(a, After(a, s, now, e), TimeAfter(now, e), events[1..])
  }

  /** An alarm is started only while it is not active, and with a delay the code can keep. */
  ghost predicate Permitted(a: Alarm, s: Standing, now: int, e: Event) {
    e.Start? && e.alarm == a ==> s.due == None && 0 <= e.delay < TWO32 && CanKeep(e.delay, now)
  }

  ghost predicate AllPermitted(a: Alarm, s: Standing, now: int, events: seq<Event>)
    decreases |events|
  {
    events == [] ||
    (Permitted(a, s, now, events[0])
     && AllPermitted(a, After(a, s, now, events[0]), TimeAfter(now, events[0]), events[1..]))
  }

  /** When nothing happens but ticks, what is expected of an active alarm are its due ticks. */
  lemma {:induction false} TicksExpectDueTicks(a: Alarm, due: int, answers: seq<int>, now: int, events: seq<Event>,
                                               last: int)
    requires (forall i :: 0 <= i < |events| ==> events[i].Tick?) && last == now + |events|
    requires now < due && AreWords(answers)
    ensures AllPermitted(a, Standing(Some(due), answers), now, events)
    ensures Expected(a, Standing(Some(due), answers), now, events) == DueTicks(due, last, answers)
    decreases |events|
  {
    if events != [] {
      var s := AfterTick(Standing(Some(due), answers), now + 1);
      if s.due.Some? {
        TicksExpectDueTicks(a, s.due.value, s.answers, now + 1, events[1..], last);
      } else {
        TicksExpectNothing(a, s.answers, now + 1, events[1..]);
      }
    }
  }

  lemma {:induction false} TicksExpectNothing(a: Alarm, answers: seq<int>, now: int, events: seq<Event>)
    requires forall i :: 0 <= i < |events| ==> events[i].Tick?
    ensures AllPermitted(a, Standing(None, answers), now, events)
    ensures Expected(a, Standing(None, answers), now, events) == []
    decreases |events|
  {
    if events != [] {
      TicksExpectNothing(a, answers, now + 1, events[1..]);
    }
  }

  // ----- what does happen -----

  /** The script once the callbacks in `called` have answered. */
  function Answered(script: Script, called: seq<Alarm>): (rest: Script)
    ensures rest.Keys == script.Keys
    ensures forall a :: a in rest ==> rest[a] == if a in called && script[a] != [] then script[a][1..] else script[a]
  {
    map a | a in script :: if a in called && script[a] != [] then script[a][1..] else script[a]
  }

  function Answer(script: Script, a: Alarm): int {
    if a in script then FirstAnswer(script[a]) else 0
  }

  /** The ticks at which `a` is called, when `calls` lists who is called at each tick after `now`. */
  ghost function CallTicks(a: Alarm, calls: seq<seq<Alarm>>, now: int): seq<int> {
    if calls == [] then []
    else
      var n := |calls| - 1;
      CallTicks(a, calls[..n], now) + if a in calls[n] then [now + |calls|] else []
  }

  /** Where one alarm stands, by the ring and the script. */
  ghost function StandingOf(a: Alarm, list: seq<Alarm>, script: Script): Standing
    requires a in script
    reads a
  {
    Standing(if a in list then Some(a.due) else None, script[a])
  }

  ghost function AllStandings(clock: Clock, alarms: set<Alarm>, script: Script): (all: map<Alarm, Standing>)
    requires alarms <= script.Keys
    reads clock, alarms
    ensures all.Keys == alarms
    ensures forall a :: a in alarms ==> all[a] == StandingOf(a, clock.list, script)
  {
    map a | a in alarms :: StandingOf(a, clock.list, script)
  }

  /** The ring is in order, all its alarms are among `alarms`, and the others among these are in no list. */
  ghost predicate Ready(clock: Clock, script: Script, alarms: set<Alarm>)
    reads clock, clock.head, clock.list, alarms
  {
    && clock.Valid() && clock.head !in alarms
    && (forall a :: a in clock.list ==> a in alarms)
    && (forall a :: a in alarms ==> a in script && AreWords(script[a]))
    && (forall a :: a in alarms && a !in clock.list ==> Alone(a))
  }

  /** The event has made of every alarm what it ought to. */
  ghost predicate Stepped(before: map<Alarm, Standing>, after: map<Alarm, Standing>, now: int, e: Event) {
    before.Keys == after.Keys && forall a :: a in before ==> after[a] == After(a, before[a], now, e)
  }

  /** Exactly the alarms that are due are called, each once. */
  ghost predicate CallsDue(called: seq<Alarm>, before: map<Alarm, Standing>, tick: int) {
    && Distinct(called)
    && (forall a :: a in called ==> a in before)
    && (forall a :: a in before ==> (a in called <==> before[a].due == Some(tick)))
  }

  // ----- starting and stopping -----

  ghost function AllDues(alarms: set<Alarm>): (dues: map<Alarm, int>)
    reads alarms
    ensures dues.Keys == alarms && forall a :: a in alarms ==> dues[a] == a.due
  {
    map a | a in alarms :: a.due
  }

  /** The other alarms are listed, due and linked, if they are in no list, as they were. */
  ghost predicate OthersStand(a: Alarm, list: seq<Alarm>, was: seq<Alarm>, dues: map<Alarm, int>)
    reads dues.Keys
  {
    forall b :: b in dues && b != a ==>
      (b in list <==> b in was) && b.due == dues[b] && (b !in list ==> Alone(b))
  }

  ghost predicate AreStandings(all: map<Alarm, Standing>, list: seq<Alarm>, dues: map<Alarm, int>, script: Script) {
    && all.Keys == dues.Keys <= script.Keys
    && forall b :: b in all ==> all[b] == Standing(if b in list then Some(dues[b]) else None, script[b])
  }

  lemma StandingsNow(clock: Clock, alarms: set<Alarm>, script: Script)
    requires alarms <= script.Keys
    ensures AreStandings(AllStandings(clock, alarms, script), clock.list, AllDues(alarms), script)
  {
  }

  lemma OthersStep(clock: Clock, a: Alarm, e: Event, script: Script, alarms: set<Alarm>, was: seq<Alarm>,
                   dues: map<Alarm, int>, before: map<Alarm, Standing>)
    requires alarms == dues.Keys == before.Keys && alarms <= script.Keys && a in alarms
    requires !e.Tick? && e.alarm == a && OthersStand(a, clock.list, was, dues)
    requires AreStandings(before, was, dues, script)
    requires if e.Start? then a in clock.list && a.due == clock.now + e.delay + 1 else a !in clock.list
    ensures Stepped(before, AllStandings(clock, alarms, script), clock.now, e)
  {
  }

  /** A start that succeeds. */
  method StartOne(clock: Clock, a: Alarm, delay: int)
    requires clock.Valid() && 0 < clock.tickRate && a != clock.head && a !in clock.list
    requires 0 <= delay < TWO32 && CanKeep(delay, clock.now)
    modifies clock`list, a, clock.head`next, clock.head`previous, clock.list`next, clock.list`previous
    ensures clock.Valid() && clock.list == [a] + old(clock.list) && a.due == clock.now + delay + 1
  {
    var rc := clock.AlarmStart(a, delay);
  }

  method RunStart(clock: Clock, a: Alarm, delay: int, script: Script, ghost alarms: set<Alarm>,
                  ghost before: map<Alarm, Standing>)
    returns (ghost after: map<Alarm, Standing>)
    requires Ready(clock, script, alarms) && a in alarms && 0 < clock.tickRate
    requires before == AllStandings(clock, alarms, script) && Permitted(a, before[a], clock.now, Start(a, delay))
    modifies clock, clock.head, alarms
    ensures Ready(clock, script, alarms) && clock.now == old(clock.now)
    ensures after == AllStandings(clock, alarms, script) && Stepped(before, after, clock.now, Start(a, delay))
  {
    ghost var was, dues := clock.list, AllDues(alarms);
    StandingsNow(clock, alarms, script);
    StartOne(clock, a, delay);
    assert OthersStand(a, clock.list, was, dues);
    after := AllStandings(clock, alarms, script);
    OthersStep(clock, a, Start(a, delay), script, alarms, was, dues, before);
  }

  /** A stop, of an alarm that is listed or not. */
  method StopOne(clock: Clock, a: Alarm)
    requires clock.Valid() && a != clock.head && (a in clock.list || Alone(a))
    modifies clock`list, a`next, a`previous, clock.head`next, clock.head`previous, clock.list`next, clock.list`previous
    ensures clock.Valid() && Alone(a)
    ensures forall b :: b in clock.list <==> b in old(clock.list) && b != a
  {
    ghost var k := -1;
    if a in clock.list {
      k :| 0 <= k < |clock.list| && clock.list[k] == a;
    }
    OnlyLoses(clock, clock.list, k, a);
    clock.AlarmStop(a, k);
  }

  method RunStop(clock: Clock, a: Alarm, script: Script, ghost alarms: set<Alarm>, ghost before: map<Alarm, Standing>)
    returns (ghost after: map<Alarm, Standing>)
    requires Ready(clock, script, alarms) && a in alarms && before == AllStandings(clock, alarms, script)
    modifies clock, clock.head, alarms
    ensures Ready(clock, script, alarms) && clock.now == old(clock.now)
    ensures after == AllStandings(clock, alarms, script) && Stepped(before, after, clock.now, Stop(a))
  {
    ghost var was, dues := clock.list, AllDues(alarms);
    StandingsNow(clock, alarms, script);
    StopOne(clock, a);
    assert OthersStand(a, clock.list, was, dues);
    after := AllStandings(clock, alarms, script);
    OthersStep(clock, a, Stop(a), script, alarms, was, dues, before);
  }

  lemma OnlyLoses(clock: Clock, list: seq<Alarm>, k: int, a: Alarm)
    requires Distinct(list) && -1 <= k < |list| && (if k == -1 then a !in list else list[k] == a)
    ensures forall b :: b in clock.Without(list, k) <==> b in list && b != a
  {
    forall b | b in list && b != a
      ensures b in clock.Without(list, k)
    {
      var j :| 0 <= j < |list| && list[j] == b;
      assert k >= 0 ==> j != k && clock.Without(list, k)[if j < k then j else j - 1] == b;
    }
  }

  // ----- ticks -----

  lemma {:induction false} CalledWasListed(list: seq<Alarm>, dues: seq<int>, tick: int, a: Alarm)
    requires |list| == |dues| && a in Called(list, dues, tick)
    ensures a in list
  {
    var n := |list| - 1;
    if a in Called(list[..n], dues[..n], tick) {
      CalledWasListed(list[..n], dues[..n], tick, a);
    }
  }

  /** An alarm is called exactly at its due tick, and no alarm is called twice. */
  lemma {:induction false} CalledAtDueTick(list: seq<Alarm>, dues: seq<int>, tick: int, j: nat)
    requires Distinct(list) && j < |list| == |dues|
    ensures list[j] in Called(list, dues, tick) <==> dues[j] == tick
  {
    var n := |list| - 1;
    if j < n {
      CalledAtDueTick(list[..n], dues[..n], tick, j);
    } else if list[n] in Called(list[..n], dues[..n], tick) {
      CalledWasListed(list[..n], dues[..n], tick, list[n]);
    }
  }

  lemma {:induction false} CalledOnce(list: seq<Alarm>, dues: seq<int>, tick: int)
    requires Distinct(list) && |list| == |dues|
    ensures Distinct(Called(list, dues, tick))
  {
    if list != [] {
      var n := |list| - 1;
      CalledOnce(list[..n], dues[..n], tick);
      if list[n] in Called(list[..n], dues[..n], tick) {
        CalledWasListed(list[..n], dues[..n], tick, list[n]);
      }
    }
  }

  /** An alarm stays listed unless it is called and answers zero. */
  lemma {:induction false} StaysUnlessDone(list: seq<Alarm>, dues: seq<int>, tick: int, answer: Alarm -> int, j: nat)
    requires Distinct(list) && j < |list| == |dues|
    ensures list[j] in Staying(list, dues, tick, answer) <==> !(dues[j] == tick && answer(list[j]) == 0)
  {
    var n := |list| - 1;
    if j < n {
      StaysUnlessDone(list[..n], dues[..n], tick, answer, j);
      assert list[..n][j] == list[j] && dues[..n][j] == dues[j];
    } else if list[n] in Staying(list[..n], dues[..n], tick, answer) {
      StayingWasListed(list[..n], dues[..n], tick, answer, list[n]);
    }
  }

  /** No alarm is called or stays listed that was not listed before. */
  lemma OnlyListed(list: seq<Alarm>, dues: seq<int>, tick: int, answer: Alarm -> int)
    requires |list| == |dues|
    ensures forall a :: a in Called(list, dues, tick) || a in Staying(list, dues, tick, answer) ==> a in list
  {
    forall a | a in Called(list, dues, tick) ensures a in list {
      CalledWasListed(list, dues, tick, a);
    }
    forall a | a in Staying(list, dues, tick, answer) ensures a in list {
      StayingWasListed(list, dues, tick, answer, a);
    }
  }

  /** What a tick makes of the alarm at position `j` of the list. */
  lemma ListedAfterTick(j: nat, list: seq<Alarm>, dues: seq<int>, tick: int, script: Script, answer: Alarm -> int,
                        timer: Timer, newDue: int)
    requires Distinct(list) && j < |list| == |dues| && list[j] in script
    requires answer(list[j]) == Answer(script, list[j])
    requires Handled(timer, newDue, dues[j], tick, answer(list[j]))
    ensures var a, called := list[j], Called(list, dues, tick);
            && (a in called <==> dues[j] == tick)
            && Standing(if a in Staying(list, dues, tick, answer) then Some(newDue) else None,
                        Answered(script, called)[a])
               == AfterTick(Standing(Some(dues[j]), script[a]), tick)
  {
    CalledAtDueTick(list, dues, tick, j);
    StaysUnlessDone(list, dues, tick, answer, j);
  }

  /** Where all alarms stand when the listed ones are due at `dues`. */
  ghost predicate AreListed(all: map<Alarm, Standing>, list: seq<Alarm>, dues: seq<int>, script: Script)
    requires |list| == |dues|
  {
    && all.Keys <= script.Keys
    && (forall j :: 0 <= j < |list| ==> list[j] in all && all[list[j]] == Standing(Some(dues[j]), script[list[j]]))
    && (forall a :: a in all && a !in list ==> all[a] == Standing(None, script[a]))
  }

  lemma ListedNow(clock: Clock, alarms: set<Alarm>, script: Script)
    requires alarms <= script.Keys && forall a :: a in clock.list ==> a in alarms
    ensures AreListed(AllStandings(clock, alarms, script), clock.list, DuesOf(clock.list), script)
  {
  }

  /** What a tick makes of any alarm. */
  lemma AnyAfterTick(a: Alarm, clock: Clock, list: seq<Alarm>, dues: seq<int>, answer: Alarm -> int, script: Script,
                     before: map<Alarm, Standing>)
    requires Distinct(list) && |list| == |dues| && a in before && AreListed(before, list, dues, script)
    requires answer(a) == Answer(script, a)
    requires AllHandled(list, dues, clock.now, answer) && clock.list == Staying(list, dues, clock.now, answer)
    ensures var called := Called(list, dues, clock.now);
            && (a in called <==> before[a].due == Some(clock.now))
            && StandingOf(a, clock.list, Answered(script, called)) == AfterTick(before[a], clock.now)
  {
    if a in list {
      var j :| 0 <= j < |list| && list[j] == a;
      ListedAfterTick(j, list, dues, clock.now, script, answer, a.Timer(), a.due);
    } else {
      OnlyListed(list, dues, clock.now, answer);
    }
  }

  lemma CalledAreKnown(list: seq<Alarm>, dues: seq<int>, tick: int, before: map<Alarm, Standing>, script: Script)
    requires |list| == |dues| && AreListed(before, list, dues, script)
    ensures forall a :: a in Called(list, dues, tick) ==> a in before
  {
    forall a | a in Called(list, dues, tick)
      ensures a in before
    {
      CalledWasListed(list, dues, tick, a);
      var j :| 0 <= j < |list| && list[j] == a;
    }
  }

  ghost predicate Ticked(before: map<Alarm, Standing>, after: map<Alarm, Standing>, tick: int) {
    before.Keys == after.Keys && forall a :: a in before ==> after[a] == AfterTick(before[a], tick)
  }

  /** A tick steps every alarm, and calls exactly those that are due. */
  lemma TickSteps(clock: Clock, list: seq<Alarm>, dues: seq<int>, answer: Alarm -> int, script: Script,
                  alarms: set<Alarm>, before: map<Alarm, Standing>)
    requires Distinct(list) && |list| == |dues| && before.Keys == alarms
    requires AreListed(before, list, dues, script)
    requires forall a :: answer(a) == Answer(script, a)
    requires AllHandled(list, dues, clock.now, answer) && clock.list == Staying(list, dues, clock.now, answer)
    ensures var called := Called(list, dues, clock.now);
            && CallsDue(called, before, clock.now)
            && Ticked(before, AllStandings(clock, alarms, Answered(script, called)), clock.now)
  {
    CalledAreKnown(list, dues, clock.now, before, script);
    CalledOnce(list, dues, clock.now);
    forall a | a in alarms
      ensures a in Called(list, dues, clock.now) <==> before[a].due == Some(clock.now)
      ensures StandingOf(a, clock.list, Answered(script, Called(list, dues, clock.now)))
              == AfterTick(before[a], clock.now)
    {
      AnyAfterTick(a, clock, list, dues, answer, script, before);
    }
  }

  lemma StaysScripted(alarms: set<Alarm>, script: Script, called: seq<Alarm>)
    requires forall a :: a in alarms ==> a in script && AreWords(script[a])
    ensures var rest := Answered(script, called); forall a :: a in alarms ==> a in rest && AreWords(rest[a])
  {
  }

  method RunTick(clock: Clock, script: Script, ghost alarms: set<Alarm>, ghost before: map<Alarm, Standing>)
    returns (called: seq<Alarm>, rest: Script, ghost after: map<Alarm, Standing>)
    requires Ready(clock, script, alarms) && before == AllStandings(clock, alarms, script)
    modifies clock, clock.head, alarms
    ensures Ready(clock, rest, alarms) && clock.now == old(clock.now) + 1
    ensures CallsDue(called, before, clock.now)
    ensures after == AllStandings(clock, alarms, rest) && Ticked(before, after, clock.now)
  {
    ghost var list, dues := clock.list, DuesOf(clock.list);
    ListedNow(clock, alarms, script);
    var answer := (a: Alarm) => Answer(script, a);
    called := clock.Tick(answer);
    rest := Answered(script, called);
    OnlyListed(list, dues, clock.now, answer);
    StaysScripted(alarms, script, called);
    TickSteps(clock, list, dues, answer, script, alarms, before);
    after := AllStandings(clock, alarms, rest);
  }

  // ----- runs -----

  /** The events are about these alarms, and alarms are started only when there is a system clock. */
  ghost predicate AreAbout(events: seq<Event>, alarms: set<Alarm>, tickRate: nat) {
    forall i :: 0 <= i < |events| ==> IsAbout(events[i], alarms, tickRate)
  }

  ghost predicate IsAbout(e: Event, alarms: set<Alarm>, tickRate: nat) {
    (e.Tick? || e.alarm in alarms) && (e.Start? ==> 0 < tickRate)
  }

  /** The calls that an event at time `now` adds. */
  ghost predicate Calls(calls: seq<seq<Alarm>>, calls': seq<seq<Alarm>>, before: map<Alarm, Standing>, now: int,
                        e: Event)
  {
    if e.Tick? then |calls'| == |calls| + 1 && calls'[..|calls|] == calls && CallsDue(calls'[|calls|], before, now + 1)
    else calls' == calls
  }

  method RunEvent(clock: Clock, e: Event, script: Script, calls0: seq<seq<Alarm>>, ghost alarms: set<Alarm>,
                  ghost before: map<Alarm, Standing>, ghost now: int)
    returns (calls: seq<seq<Alarm>>, rest: Script, ghost after: map<Alarm, Standing>)
    requires Ready(clock, script, alarms) && now == clock.now && before == AllStandings(clock, alarms, script)
    requires IsAbout(e, alarms, clock.tickRate) && (e.Start? ==> Permitted(e.alarm, before[e.alarm], now, e))
    modifies clock, clock.head, alarms
    ensures Ready(clock, rest, alarms) && clock.now == TimeAfter(now, e)
    ensures after == AllStandings(clock, alarms, rest) && Stepped(before, after, now, e)
    ensures Calls(calls0, calls, before, now, e)
  {
    calls, rest := calls0, script;
    match e {
      case Start(a, delay) =>
        after := RunStart(clock, a, delay, script, alarms, before);
      case Stop(a) =>
        after := RunStop(clock, a, script, alarms, before);
      case Tick =>
        var called;
        called, rest, after := RunTick(clock, script, alarms, before);
        calls := calls0 + [called];
    }
  }

  /** What has happened to every alarm, and what is expected of it in the events to come, is all that was
      expected of it. */
  ghost predicate OnSchedule(calls: seq<seq<Alarm>>, start: int, now: int, left: seq<Event>,
                             standings: map<Alarm, Standing>, total: map<Alarm, seq<int>>)
  {
    && standings.Keys == total.Keys
    && forall a :: a in total ==>
         && AllPermitted(a, standings[a], now, left)
         && CallTicks(a, calls, start) + Expected(a, standings[a], now, left) == total[a]
  }

  lemma AlarmStaysOnSchedule(a: Alarm, s: Standing, calls: seq<seq<Alarm>>, calls': seq<seq<Alarm>>, start: int,
                             now: int, left: seq<Event>, total: seq<int>)
    requires left != [] && AllPermitted(a, s, now, left) && now == start + |calls|
    requires CallTicks(a, calls, start) + Expected(a, s, now, left) == total
    requires if left[0].Tick?
             then |calls'| == |calls| + 1 && calls'[..|calls|] == calls
                  && (a in calls'[|calls|] <==> s.due == Some(now + 1))
             else calls' == calls
    ensures var s', now', left' := After(a, s, now, left[0]), TimeAfter(now, left[0]), left[1..];
            AllPermitted(a, s', now', left') && CallTicks(a, calls', start) + Expected(a, s', now', left') == total
  {
    var first := if left[0].Tick? && s.due == Some(now + 1) then [now + 1] else [];
    if left[0].Tick? {
      CalledOneMore(a, calls, calls', start, now + 1);
    } else {
      NothingMore(CallTicks(a, calls, start));
    }
    Shift(CallTicks(a, calls, start), CallTicks(a, calls', start), first,
          Expected(a, After(a, s, now, left[0]), TimeAfter(now, left[0]), left[1..]), Expected(a, s, now, left), total);
  }

  lemma NothingMore(a: seq<int>)
    ensures a == a + []
  {
  }

  lemma CalledOneMore(a: Alarm, calls: seq<seq<Alarm>>, calls': seq<seq<Alarm>>, start: int, tick: int)
    requires |calls'| == |calls| + 1 && calls'[..|calls|] == calls && tick == start + |calls'|
    ensures CallTicks(a, calls', start) == CallTicks(a, calls, start) + if a in calls'[|calls|] then [tick] else []
  {
  }

  /** What is due next moves from what lies ahead to what has happened. */
  lemma Shift(done: seq<int>, done': seq<int>, first: seq<int>, rest: seq<int>, ahead: seq<int>, total: seq<int>)
    requires done' == done + first && ahead == first + rest && done + ahead == total
    ensures done' + rest == total
  {
  }

  lemma StaysOnSchedule(calls: seq<seq<Alarm>>, calls': seq<seq<Alarm>>, start: int, now: int, left: seq<Event>,
                        before: map<Alarm, Standing>, after: map<Alarm, Standing>, total: map<Alarm, seq<int>>)
    requires left != [] && OnSchedule(calls, start, now, left, before, total) && Stepped(before, after, now, left[0])
    requires now == start + |calls| && Calls(calls, calls', before, now, left[0])
    ensures OnSchedule(calls', start, TimeAfter(now, left[0]), left[1..], after, total)
  {
    forall a | a in total
      ensures AllPermitted(a, after[a], TimeAfter(now, left[0]), left[1..])
      ensures CallTicks(a, calls', start) + Expected(a, after[a], TimeAfter(now, left[0]), left[1..]) == total[a]
    {
      AlarmStaysOnSchedule(a, before[a], calls, calls', start, now, left, total[a]);
    }
  }

  /** All the calls are to these alarms, each at most once a tick. */
  ghost predicate AreCalls(calls: seq<seq<Alarm>>, alarms: set<Alarm>) {
    forall i :: 0 <= i < |calls| ==> Distinct(calls[i]) && forall a :: a in calls[i] ==> a in alarms
  }

  lemma CallsAreToThese(calls: seq<seq<Alarm>>, calls': seq<seq<Alarm>>, before: map<Alarm, Standing>, now: int,
                        e: Event)
    requires AreCalls(calls, before.Keys) && Calls(calls, calls', before, now, e)
    ensures AreCalls(calls', before.Keys)
  {
    if e.Tick? {
      forall i | 0 <= i < |calls'|
        ensures Distinct(calls'[i]) && forall a :: a in calls'[i] ==> a in before
      {
        assert i < |calls| ==> calls'[i] == calls[i];
      }
    }
  }

  /** Before a run, everything expected lies ahead. */
  lemma ScheduleBegins(start: int, events: seq<Event>, standings: map<Alarm, Standing>)
    requires forall a :: a in standings ==> AllPermitted(a, standings[a], start, events)
    ensures OnSchedule([], start, start, events, standings,
                       map a | a in standings :: Expected(a, standings[a], start, events))
  {
    forall a | a in standings
      ensures CallTicks(a, [], start) + Expected(a, standings[a], start, events)
              == Expected(a, standings[a], start, events)
    {
    }
  }

  /** After it, everything expected has happened. */
  lemma ScheduleEnds(calls: seq<seq<Alarm>>, start: int, now: int, standings: map<Alarm, Standing>,
                     total: map<Alarm, seq<int>>)
    requires OnSchedule(calls, start, now, [], standings, total)
    ensures forall a :: a in total ==> CallTicks(a, calls, start) == total[a]
  {
  }

  /** One event of a run, whose events still to come are `left`. */
  method RunNext(clock: Clock, script: Script, calls0: seq<seq<Alarm>>, left: seq<Event>, ghost alarms: set<Alarm>,
                 ghost before: map<Alarm, Standing>, ghost start: int, ghost now: int,
                 ghost total: map<Alarm, seq<int>>)
    returns (calls: seq<seq<Alarm>>, rest: Script, ghost after: map<Alarm, Standing>)
    requires left != [] && AreAbout(left, alarms, clock.tickRate) && AreCalls(calls0, alarms)
    requires Ready(clock, script, alarms) && now == clock.now == start + |calls0|
    requires before == AllStandings(clock, alarms, script) && OnSchedule(calls0, start, now, left, before, total)
    modifies clock, clock.head, alarms
    ensures AreCalls(calls, alarms) && Ready(clock, rest, alarms) && after == AllStandings(clock, alarms, rest)
    ensures clock.now == TimeAfter(now, left[0]) == start + |calls|
    ensures OnSchedule(calls, start, TimeAfter(now, left[0]), left[1..], after, total)
  {
    calls, rest, after := RunEvent(clock, left[0], script, calls0, alarms, before, now);
    CallsAreToThese(calls0, calls, before, now, left[0]);
    StaysOnSchedule(calls0, calls, start, now, left, before, after, total);
  }

  /** Any run of starts, stops and ticks in any order: whatever the callbacks answer and whatever happens
      to the alarms around it, every alarm is called at the ticks expected of it and at no others, and
      nobody else is called. */
  method RunEvents(clock: Clock, events: seq<Event>, script: Script, ghost alarms: set<Alarm>,
                   ghost standings0: map<Alarm, Standing>)
    returns (calls: seq<seq<Alarm>>, rest: Script)
    requires Ready(clock, script, alarms) && AreAbout(events, alarms, clock.tickRate)
    requires standings0 == AllStandings(clock, alarms, script)
    requires forall a :: a in alarms ==> AllPermitted(a, standings0[a], clock.now, events)
    modifies clock, clock.head, alarms
    ensures Ready(clock, rest, alarms) && AreCalls(calls, alarms)
    ensures clock.now == old(clock.now) + Duration(events) && |calls| == Duration(events)
    ensures forall a :: a in alarms ==>
              CallTicks(a, calls, old(clock.now)) == Expected(a, standings0[a], old(clock.now), events)
  {
    ghost var standings, start, now := standings0, clock.now, clock.now;
    ghost var total := map a | a in standings :: Expected(a, standings[a], start, events);
    ScheduleBegins(start, events, standings);
    calls, rest := [], script;
    var left := events;
    while left != []
      invariant AreAbout(left, alarms, clock.tickRate) && AreCalls(calls, alarms)
      invariant Ready(clock, rest, alarms) && now == clock.now == start + |calls|
      invariant now + Duration(left) == start + Duration(events)
      invariant standings == AllStandings(clock, alarms, rest) && OnSchedule(calls, start, now, left, standings, total)
      decreases |left|
    {
      calls, rest, standings := RunNext(clock, rest, calls, left, alarms, standings, start, now, total);
      now, left := TimeAfter(now, left[0]), left[1..];
    }
    ScheduleEnds(calls, start, now, standings, total);
  }

  /** In particular, when nothing is started or stopped: any number of ticks calls every alarm that was
      listed at its due ticks and at no others. */
  method RunTicks(clock: Clock, script: Script, k: nat, ghost last: int) returns (calls: seq<seq<Alarm>>)
    requires last == clock.now + k
    requires clock.Valid() && forall a :: a in clock.list ==> a in script && AreWords(script[a])
    modifies clock, clock.head, set a | a in clock.list
    ensures clock.Valid() && clock.now == last && |calls| == k
    ensures AreCalls(calls, set a | a in old(clock.list))
    ensures forall a :: a in old(clock.list) ==>
              CallTicks(a, calls, old(clock.now)) == DueTicks(old(a.due), last, script[a])
  {
    ghost var alarms := set a | a in clock.list;
    ghost var start, standings, due := clock.now, AllStandings(clock, alarms, script), DueOf(alarms, script, last);
    var ticks := seq(k, _ => Tick);
    TicksLast(ticks);
    ListedExpectDueTicks(clock, alarms, script, ticks, last, standings, due);
    var rest;
    calls, rest := RunEvents(clock, ticks, script, alarms, standings);
    AsExpected(calls, start, ticks, standings, due);
  }

  /** The due ticks up to `last`. */
  ghost function DueOf(alarms: set<Alarm>, script: Script, last: int): (due: map<Alarm, seq<int>>)
    requires alarms <= script.Keys
    reads alarms
    ensures due.Keys == alarms && forall a :: a in alarms ==> due[a] == DueTicks(a.due, last, script[a])
  {
    map a | a in alarms :: DueTicks(a.due, last, script[a])
  }

  lemma ListedExpectDueTicks(clock: Clock, alarms: set<Alarm>, script: Script, ticks: seq<Event>, last: int,
                             standings: map<Alarm, Standing>, due: map<Alarm, seq<int>>)
    requires clock.Valid() && alarms == (set a | a in clock.list) && alarms <= script.Keys
    requires forall a :: a in alarms ==> AreWords(script[a])
    requires (forall i :: 0 <= i < |ticks| ==> ticks[i].Tick?) && last == clock.now + |ticks|
    requires standings == AllStandings(clock, alarms, script) && due == DueOf(alarms, script, last)
    ensures forall a :: a in standings ==>
              AllPermitted(a, standings[a], clock.now, ticks) && Expected(a, standings[a], clock.now, ticks) == due[a]
  {
    forall a | a in standings
      ensures AllPermitted(a, standings[a], clock.now, ticks) && Expected(a, standings[a], clock.now, ticks) == due[a]
    {
      DueLiesAhead(clock, a);
      assert standings[a] == Standing(Some(a.due), script[a]);
      TicksExpectDueTicks(a, a.due, script[a], clock.now, ticks, last);
    }
  }

  /** A listed alarm is due later than now. */
  lemma DueLiesAhead(clock: Clock, a: Alarm)
    requires clock.Valid() && a in clock.list
    ensures clock.now < a.due
  {
    var j :| 0 <= j < |clock.list| && clock.list[j] == a;
    assert Represents(TimersOf(clock.list)[j], DuesOf(clock.list)[j], clock.now);
  }

  lemma AsExpected(calls: seq<seq<Alarm>>, start: int, ticks: seq<Event>, standings: map<Alarm, Standing>,
                   due: map<Alarm, seq<int>>)
    requires due.Keys == standings.Keys
    requires forall a :: a in standings ==> Expected(a, standings[a], start, ticks) == due[a]
    requires forall a :: a in standings ==> CallTicks(a, calls, start) == Expected(a, standings[a], start, ticks)
    ensures forall a :: a in due ==> CallTicks(a, calls, start) == due[a]
  {
  }

  lemma {:induction false} TicksLast(ticks: seq<Event>)
    requires forall i :: 0 <= i < |ticks| ==> ticks[i].Tick?
    ensures Duration(ticks) == |ticks|
  {
    if ticks != [] {
      TicksLast(ticks[1..]);
    }
  }
}
