/** The registered alarms: a doubly linked ring that `alt_tick` edits while it walks along it. */
module AlarmList {
  import opened CArith
  import opened AlarmTime

  class Alarm {
    var next: Alarm
    var previous: Alarm
    var time: int
    var rollover: bool
    ghost var due: int

    /** An alarm that is in no list points to itself. */
    constructor ()
      ensures next == this && previous == this
    {
      next, previous := this, this;
      time, rollover, due := 0, false, 0;
    }

    function Timer(): Timer
      reads this
    {
      AlarmTime.Timer(time, rollover)
    }
  }

  /** Each element points to the one after it, and that one points back. */
  ghost predicate Linked(ring: seq<Alarm>)
    reads ring
  {
    && (forall i {:trigger ring[i].next} :: 0 <= i < |ring| - 1 ==> ring[i].next == ring[i + 1])
    && (forall i {:trigger ring[i].previous} :: 0 < i < |ring| ==> ring[i].previous == ring[i - 1])
  }

  ghost predicate Distinct(list: seq<Alarm>) {
    forall i, j :: 0 <= i < j < |list| ==> list[i] != list[j]
  }

  /** The alarms of `list` that stay listed when those at their due tick are asked for an answer. */
  ghost function Staying(list: seq<Alarm>, dues: seq<int>, tick: int, answer: Alarm -> int): seq<Alarm>
    requires |list| == |dues|
  {
    if list == [] then []
    else
      var rest := Staying(list[..|list| - 1], dues[..|list| - 1], tick, answer);
      var last := list[|list| - 1];
      if dues[|list| - 1] == tick && answer(last) == 0 then rest else rest + [last]
  }

  /** The alarms of `list` that are called at `tick`, in the order of the list. */
  ghost function Called(list: seq<Alarm>, dues: seq<int>, tick: int): seq<Alarm>
    requires |list| == |dues|
  {
    if list == [] then []
    else
      var rest := Called(list[..|list| - 1], dues[..|list| - 1], tick);
      if dues[|list| - 1] == tick then rest + [list[|list| - 1]] else rest
  }

  /** What `alt_alarm_start` returns: 0, `-EINVAL` or `-ENOTSUP`. */
  datatype StartCode = Started | InvalidArgument | NotSupported

  /** The lists that describe a walk, one alarm further. */
  lemma WalkLists(i: nat, entry: seq<Alarm>, dues: seq<int>, tick: int, answer: Alarm -> int)
    requires i < |entry| == |dues|
    ensures Staying(entry[..i + 1], dues[..i + 1], tick, answer) ==
            Staying(entry[..i], dues[..i], tick, answer) +
            if dues[i] == tick && answer(entry[i]) == 0 then [] else [entry[i]]
    ensures Called(entry[..i + 1], dues[..i + 1], tick) ==
            Called(entry[..i], dues[..i], tick) + if dues[i] == tick then [entry[i]] else []
  {
    assert entry[..i + 1][..i] == entry[..i] && dues[..i + 1][..i] == dues[..i];
  }

  /** What surrounds the alarm a walk has reached. */
  lemma ListAround(list: seq<Alarm>, stay: seq<Alarm>, entry: seq<Alarm>, i: nat)
    requires i < |entry| && list == stay + entry[i..]
    ensures |stay| < |list| && list[|stay|] == entry[i]
    ensures i + 1 < |entry| ==> |stay| + 1 < |list| && list[|stay| + 1] == entry[i + 1]
    ensures i + 1 == |entry| ==> |stay| + 1 == |list|
    ensures list[..|stay|] + list[|stay| + 1..] == stay + entry[i + 1..]
    ensures list == (stay + [entry[i]]) + entry[i + 1..]
  {
  }

  /** A walk has reached the `i`-th of the alarms listed at entry: the list is what stays of the alarms
      before it, followed by the alarms from it on. */
  ghost predicate Walked(list: seq<Alarm>, i: nat, entry: seq<Alarm>, dues: seq<int>, tick: int, answer: Alarm -> int) {
    && i <= |entry| == |dues|
    && list == Staying(entry[..i], dues[..i], tick, answer) + entry[i..]
    && forall a :: a in list ==> a in entry
  }

  lemma WalkedOneMore(before: seq<Alarm>, after: seq<Alarm>, i: nat, entry: seq<Alarm>, dues: seq<int>,
                      tick: int, answer: Alarm -> int)
    requires i < |entry| && Walked(before, i, entry, dues, tick, answer)
    requires var k := |Staying(entry[..i], dues[..i], tick, answer)|;
             && k < |before|
             && after == if dues[i] == tick && answer(entry[i]) == 0 then before[..k] + before[k + 1..] else before
    ensures Walked(after, i + 1, entry, dues, tick, answer)
  {
    WalkLists(i, entry, dues, tick, answer);
    var stay := Staying(entry[..i], dues[..i], tick, answer);
    var stay' := Staying(entry[..i + 1], dues[..i + 1], tick, answer);
    ListOneMore(before, after, stay, stay', entry, i, dues[i] == tick && answer(entry[i]) == 0);
  }

  /** One step of a walk, seen from the list alone. */
  lemma ListOneMore(before: seq<Alarm>, after: seq<Alarm>, stay: seq<Alarm>, stay': seq<Alarm>, entry: seq<Alarm>,
                    i: nat, gone: bool)
    requires i < |entry| && before == stay + entry[i..] && forall a :: a in before ==> a in entry
    requires stay' == stay + if gone then [] else [entry[i]]
    requires after == if gone then before[..|stay|] + before[|stay| + 1..] else before
    ensures after == stay' + entry[i + 1..] && forall a :: a in after ==> a in entry
  {
    ListAround(before, stay, entry, i);
    if gone {
      RestIsPart(before, |stay|);
    }
  }

  lemma LosesOnlyOne(list: seq<Alarm>, k: nat)
    requires k < |list|
    ensures forall a :: a in list && a !in list[..k] + list[k + 1..] ==> a == list[k]
  {
  }

  lemma RestIsPart(list: seq<Alarm>, k: nat)
    requires k < |list|
    ensures forall a :: a in list[..k] + list[k + 1..] ==> a in list
  {
  }

  /** What a tick has made of an alarm that was due at `due`: it is gone, or it stands for its next due tick. */
  ghost predicate Handled(t: Timer, newDue: int, due: int, tick: int, answer: int) {
    (due == tick && answer == 0) ||
    (Represents(t, newDue, tick) && newDue == due + if due == tick then answer else 0)
  }

  ghost predicate HandledUpTo(n: nat, list: seq<Alarm>, dues: seq<int>, tick: int, answer: Alarm -> int)
    requires n <= |list| == |dues|
    reads list
  {
    forall j :: 0 <= j < n ==> Handled(list[j].Timer(), list[j].due, dues[j], tick, answer(list[j]))
  }

  ghost predicate AllHandled(list: seq<Alarm>, dues: seq<int>, tick: int, answer: Alarm -> int)
    requires |list| == |dues|
    reads list
  {
    HandledUpTo(|list|, list, dues, tick, answer)
  }

  /** The alarms from the `n`-th on are as they were at entry. */
  ghost predicate UntouchedFrom(n: nat, list: seq<Alarm>, timers: seq<Timer>, dues: seq<int>)
    requires n <= |list| == |timers| == |dues|
    reads list
  {
    forall j :: n <= j < |list| ==> list[j].due == dues[j] && list[j].Timer() == timers[j]
  }

  /** An alarm that points to itself is in no list. */
  ghost predicate Alone(a: Alarm)
    reads a
  {
    a.next == a && a.previous == a
  }

  /** The alarms that have left the list point to themselves. */
  ghost predicate GoneAreAlone(entry: seq<Alarm>, list: seq<Alarm>)
    reads entry
  {
    forall a :: a in entry && a !in list ==> Alone(a)
  }

  /** Between ticks, every alarm stands for its due tick. */
  ghost predicate AllRepresent(timers: seq<Timer>, dues: seq<int>, now: int) {
    |timers| == |dues| && forall j :: 0 <= j < |timers| ==> Represents(timers[j], dues[j], now)
  }

  ghost function TimersOf(list: seq<Alarm>): (t: seq<Timer>)
    reads list
    ensures |t| == |list| && forall i :: 0 <= i < |t| ==> t[i] == list[i].Timer()
  {
    seq(|list|, i requires 0 <= i < |list| reads list => list[i].Timer())
  }

  ghost function DuesOf(list: seq<Alarm>): (d: seq<int>)
    reads list
    ensures |d| == |list| && forall i :: 0 <= i < |d| ==> d[i] == list[i].due
  {
    seq(|list|, i requires 0 <= i < |list| reads list => list[i].due)
  }

  /** An alarm at the front of a list of alarms that stand for their due ticks. */
  lemma OneMoreListed(alarm: Alarm, others: seq<Alarm>, timers: seq<Timer>, dues: seq<int>, now: int)
    requires |others| == |timers| && AllRepresent(timers, dues, now) && UntouchedFrom(0, others, timers, dues)
    ensures AllRepresent(TimersOf([alarm] + others), DuesOf([alarm] + others), now) <==>
            Represents(alarm.Timer(), alarm.due, now)
  {
    var list := [alarm] + others;
    forall j | 0 < j < |list|
      ensures Represents(TimersOf(list)[j], DuesOf(list)[j], now)
    {
      assert list[j] == others[j - 1] && Represents(timers[j - 1], dues[j - 1], now);
    }
    assert TimersOf(list)[0] == alarm.Timer() && DuesOf(list)[0] == alarm.due;
  }

  /** Every alarm that stays was listed, and was not both due and answered with zero. */
  lemma {:induction false} StayingWasListed(list: seq<Alarm>, dues: seq<int>, tick: int, answer: Alarm -> int, a: Alarm)
    requires |list| == |dues| && a in Staying(list, dues, tick, answer)
    ensures exists j :: 0 <= j < |list| && list[j] == a && !(dues[j] == tick && answer(a) == 0)
  {
    var n := |list| - 1;
    if a in Staying(list[..n], dues[..n], tick, answer) {
      StayingWasListed(list[..n], dues[..n], tick, answer, a);
      var j :| 0 <= j < n && list[..n][j] == a && !(dues[..n][j] == tick && answer(a) == 0);
      assert list[j] == a && dues[j] == dues[..n][j];
    } else {
      assert list[n] == a;
    }
  }

  /** `picked` are the elements of `list` at the positions `at`, in the order of the list. */
  ghost predicate PicksInOrder(picked: seq<Alarm>, list: seq<Alarm>, at: seq<nat>) {
    && |at| == |picked|
    && (forall p :: 0 <= p < |at| ==> at[p] < |list| && picked[p] == list[at[p]])
    && (forall p, q :: 0 <= p < q < |at| ==> at[p] < at[q])
  }

  lemma PickOneMore(picked: seq<Alarm>, list: seq<Alarm>, at: seq<nat>)
    requires list != [] && PicksInOrder(picked, list[..|list| - 1], at)
    ensures PicksInOrder(picked, list, at)
    ensures PicksInOrder(picked + [list[|list| - 1]], list, at + [|list| - 1])
  {
  }

  lemma PositionsOneMore(at: seq<nat>, n: nat)
    requires forall p :: 0 <= p < |at| ==> at[p] < n
    ensures n !in at && forall j: nat :: j in at + [n] <==> j in at || j == n
  {
  }

  /** A tick calls exactly the listed alarms that are due, in the order of the list. */
  lemma {:induction false} CallsInOrder(list: seq<Alarm>, dues: seq<int>, tick: int) returns (at: seq<nat>)
    requires |list| == |dues|
    ensures PicksInOrder(Called(list, dues, tick), list, at)
    ensures forall j: nat :: j < |list| ==> (j in at <==> dues[j] == tick)
  {
    at := [];
    if list != [] {
      var n := |list| - 1;
      var front := CallsInOrder(list[..n], dues[..n], tick);
      PickOneMore(Called(list[..n], dues[..n], tick), list, front);
      PositionsOneMore(front, n);
      at := if dues[n] == tick then front + [n] else front;
    }
  }

  /** It keeps exactly the others and those that answered, in the order of the list. */
  lemma {:induction false} StaysInOrder(list: seq<Alarm>, dues: seq<int>, tick: int, answer: Alarm -> int)
    returns (at: seq<nat>)
    requires |list| == |dues|
    ensures PicksInOrder(Staying(list, dues, tick, answer), list, at)
    ensures forall j: nat :: j < |list| ==> (j in at <==> !(dues[j] == tick && answer(list[j]) == 0))
  {
    at := [];
    if list != [] {
      var n := |list| - 1;
      var front := StaysInOrder(list[..n], dues[..n], tick, answer);
      PickOneMore(Staying(list[..n], dues[..n], tick, answer), list, front);
      PositionsOneMore(front, n);
      at := if dues[n] == tick && answer(list[n]) == 0 then front else front + [n];
      forall j: nat | j < |list|
        ensures j in at <==> !(dues[j] == tick && answer(list[j]) == 0)
      {
        assert j < n ==> list[..n][j] == list[j] && dues[..n][j] == dues[j];
      }
    }
  }

  lemma WalkBegins(list: seq<Alarm>, dues: seq<int>, tick: int, answer: Alarm -> int)
    requires |list| == |dues|
    ensures Walked(list, 0, list, dues, tick, answer)
    ensures Called(list[..0], dues[..0], tick) == []
  {
    assert list == [] + list[0..];
  }

  lemma WalkEnds(list: seq<Alarm>, entry: seq<Alarm>, dues: seq<int>, tick: int, answer: Alarm -> int)
    requires Walked(list, |entry|, entry, dues, tick, answer) && AllHandled(entry, dues, tick, answer)
    ensures list == Staying(entry, dues, tick, answer)
    ensures Called(entry[..|entry|], dues[..|entry|], tick) == Called(entry, dues, tick)
    ensures AllRepresent(TimersOf(list), DuesOf(list), tick)
  {
    assert entry[..|entry|] == entry && dues[..|entry|] == dues;
    forall i | 0 <= i < |list|
      ensures Represents(list[i].Timer(), list[i].due, tick)
    {
      StayingWasListed(entry, dues, tick, answer, list[i]);
    }
  }

  class Clock {
    const head: Alarm
    var nticks: int
    const tickRate: nat
    ghost var now: nat
    ghost var list: seq<Alarm>

    ghost predicate Shaped()
      reads this, head, list
    {
      && head !in list && Distinct(list) && Linked([head] + list + [head])
      && nticks == U32(now)
    }

    /** Every listed alarm stands for its due tick. */
    ghost predicate Valid()
      reads this, head, list
    {
      Shaped() && AllRepresent(TimersOf(list), DuesOf(list), now)
    }

    constructor (tickRate: nat)
      ensures Valid() && fresh(head) && list == [] && now == 0 && this.tickRate == tickRate
    {
      head := new Alarm();
      nticks, now, list := 0, 0, [];
      this.tickRate := tickRate;
    }

    /** The element after the head is the first of the list, or the head itself. */
    lemma FirstIsNext()
      requires Linked([head] + list + [head])
      ensures head.next == if list == [] then head else list[0]
    {
      var ring := [head] + list + [head];
      assert ring[0].next == ring[1];
    }

    /** `alt_llist_insert` at the head of the list. */
    method Insert(alarm: Alarm)
      requires Shaped() && alarm != head && alarm !in list
      modifies `list, alarm`next, alarm`previous, head`next, head`previous, list`next, list`previous
      ensures Shaped() && list == [alarm] + old(list)
    {
      ghost var ring := [head] + list + [head];
      FirstIsNext();
      alarm.previous := head;
      alarm.next := head.next;
      head.next.previous := alarm;
      head.next := alarm;
      list := [alarm] + list;
      ghost var ring' := [head] + list + [head];
      forall i | 0 <= i < |ring'| - 1
        ensures ring'[i].next == ring'[i + 1] && ring'[i + 1].previous == ring'[i]
      {
        if i >= 2 {
          assert ring'[i] == ring[i - 1] && ring'[i + 1] == ring[i];
          assert old(ring[i - 1].next) == ring[i] && old(ring[i].previous) == ring[i - 1];
        }
      }
    }

    /** `list` without its `k`-th alarm; `-1` stands for an alarm that is not listed. */
    ghost function Without(l: seq<Alarm>, k: int): seq<Alarm>
      requires -1 <= k < |l|
    {
      if k == -1 then l else l[..k] + l[k + 1..]
    }

    /** The alarm is the `k`-th of the list, or is in no list and points to itself. */
    ghost predicate IsAt(alarm: Alarm, k: int)
      reads this, alarm
    {
      if k == -1 then alarm != head && alarm !in list && Alone(alarm)
      else 0 <= k < |list| && list[k] == alarm
    }

    /** The alarm before or after the `k`-th one in the ring; an alarm that is not listed is its own neighbour. */
    ghost function Neighbour(alarm: Alarm, k: int, step: int): Alarm
      reads this
      requires -1 <= k < |list| && (step == -1 || step == 1)
    {
      if k == -1 then alarm else ([head] + list + [head])[k + 1 + step]
    }

    /** `alt_llist_remove`: ties the neighbours together and makes the alarm point to itself. */
    method Unlink(alarm: Alarm, ghost before: Alarm, ghost after: Alarm)
      requires alarm.previous == before && alarm.next == after && (before == alarm <==> after == alarm)
      modifies alarm`next, alarm`previous, before`next, after`previous
      ensures alarm.next == alarm && alarm.previous == alarm
      ensures before != alarm ==> before.next == after && after.previous == before
    {
      alarm.next.previous := alarm.previous;
      alarm.previous.next := alarm.next;
      alarm.previous := alarm;
      alarm.next := alarm;
    }

    /** `alt_alarm_stop`: unlinks an alarm and leaves it pointing to itself, so that stopping it once more
        is harmless. */
    method AlarmStop(alarm: Alarm, ghost k: int)
      requires Shaped() && IsAt(alarm, k)
      modifies `list, alarm`next, alarm`previous, head`next, head`previous, list`next, list`previous
      ensures Shaped() && list == Without(old(list), k) && IsAt(alarm, -1)
      ensures old(Valid()) ==> Valid()
    {
      ghost var was, timers, dues := list, TimersOf(list), DuesOf(list);
      TakeOut(alarm, k);
      StillRepresent(was, timers, dues, k);
    }

    /** Takes the `k`-th alarm out of the ring. */
    method TakeOut(alarm: Alarm, ghost k: int)
      requires Shaped() && IsAt(alarm, k)
      modifies `list, alarm`next, alarm`previous, head`next, head`previous, list`next, list`previous
      ensures Shaped() && list == Without(old(list), k) && IsAt(alarm, -1)
    {
      ghost var ring, before, after := [head] + list + [head], Neighbour(alarm, k, -1), Neighbour(alarm, k, 1);
      NeighboursOf(alarm, k);
      Unlink(alarm, before, after);
      forall j | 0 <= j < |ring| - 1 && (k == -1 || (j != k && j != k + 1))
        ensures ring[j].next == ring[j + 1] && ring[j + 1].previous == ring[j]
      {
        KeepsItsLinks(j, k);
        assert old(ring[j].next) == ring[j + 1] && old(ring[j + 1].previous) == ring[j];
      }
      LinkedWithout(k);
      WithoutLosesIt(k);
      list := Without(list, k);
    }

    /** The alarms that remain still stand for their due ticks. */
    lemma StillRepresent(was: seq<Alarm>, timers: seq<Timer>, dues: seq<int>, k: int)
      requires -1 <= k < |was| == |timers| == |dues| && UntouchedFrom(0, was, timers, dues)
      ensures AllRepresent(timers, dues, now) ==>
                AllRepresent(TimersOf(Without(was, k)), DuesOf(Without(was, k)), now)
    {
      var rest := Without(was, k);
      forall j | 0 <= j < |rest|
        ensures exists i :: 0 <= i < |was| && TimersOf(rest)[j] == timers[i] && DuesOf(rest)[j] == dues[i]
      {
        var i := if k == -1 || j < k then j else j + 1;
        assert rest[j] == was[i];
      }
    }

    lemma WithoutLosesIt(k: int)
      requires head !in list && Distinct(list) && -1 <= k < |list|
      ensures head !in Without(list, k) && Distinct(Without(list, k))
      ensures k >= 0 ==> list[k] !in Without(list, k) && list[k] != head
    {
    }

    /** With the neighbours of the `k`-th alarm tied together, the ring without it is linked. */
    lemma LinkedWithout(k: int)
      requires -1 <= k < |list|
      requires var ring := [head] + list + [head];
               && (k >= 0 ==> ring[k].next == ring[k + 2] && ring[k + 2].previous == ring[k])
               && forall j :: 0 <= j < |ring| - 1 && (k == -1 || (j != k && j != k + 1)) ==>
                    ring[j].next == ring[j + 1] && ring[j + 1].previous == ring[j]
      ensures Linked([head] + Without(list, k) + [head])
    {
      var ring, ring' := [head] + list + [head], [head] + Without(list, k) + [head];
      RingWithout(ring, ring', list, k);
      forall i | 0 <= i < |ring'| - 1
        ensures ring'[i].next == ring'[i + 1] && ring'[i + 1].previous == ring'[i]
      {
        if k == -1 || i < k {
          assert ring[i].next == ring[i + 1];
        } else if i > k {
          assert ring[i + 1].next == ring[i + 2];
        }
      }
    }

    /** The link from `j` to `j + 1` is not one of the two at the `k`-th alarm. */
    lemma KeepsItsLinks(j: nat, k: int)
      requires head !in list && Distinct(list) && -1 <= k < |list| && j <= |list| && j != k && (k == -1 || j != k + 1)
      ensures var ring := [head] + list + [head];
              k >= 0 ==>
                && ring[j] != ring[k + 1] && ring[j] != ring[k]
                && ring[j + 1] != ring[k + 1] && ring[j + 1] != ring[k + 2]
    {
    }

    lemma NeighboursOf(alarm: Alarm, k: int)
      requires Shaped() && IsAt(alarm, k)
      ensures alarm.previous == Neighbour(alarm, k, -1) && alarm.next == Neighbour(alarm, k, 1)
      ensures k >= 0 ==> alarm != Neighbour(alarm, k, -1) && alarm != Neighbour(alarm, k, 1)
    {
      if k >= 0 {
        var ring := [head] + list + [head];
        assert ring[k].next == ring[k + 1] && ring[k + 1].next == ring[k + 2];
      }
    }

    /** The ring loses one element. */
    lemma RingWithout(ring: seq<Alarm>, ring': seq<Alarm>, l: seq<Alarm>, k: int)
      requires -1 <= k < |l| && ring == [head] + l + [head] && ring' == [head] + Without(l, k) + [head]
      ensures k == -1 ==> ring' == ring
      ensures k >= 0 ==> |ring'| == |ring| - 1
      ensures k >= 0 ==> forall i :: 0 <= i < |ring'| ==> ring'[i] == if i <= k then ring[i] else ring[i + 1]
    {
    }

    /** The part of `alt_alarm_start` that runs with interrupts disabled. */
    method Register(alarm: Alarm, delay: int)
      requires Shaped() && alarm != head && alarm !in list
      modifies `list, alarm, head`next, head`previous, list`next, list`previous
      ensures Shaped() && now == old(now)
      ensures list == [alarm] + old(list) && alarm.due == now + delay + 1
      ensures alarm.Timer() == Arm(delay, U32(now))
    {
      var current := nticks;
      alarm.time := U32(delay + current + 1);
      alarm.rollover := alarm.time < current;
      alarm.due := now + delay + 1;
      Insert(alarm);
    }

    /** `alt_alarm_start`; `delay` is a word, and the alarm must not be listed already. */
    method AlarmStart(alarm: Alarm?, delay: int) returns (rc: StartCode)
      requires Valid() && 0 <= delay < TWO32
      requires alarm != null ==> alarm != head && alarm !in list
      modifies `list, alarm, head`next, head`previous, list`next, list`previous
      ensures Shaped() && now == old(now)
      ensures rc == if tickRate == 0 then NotSupported else if alarm == null then InvalidArgument else Started
      ensures rc != Started ==> list == old(list) && Valid()
      ensures rc == Started ==> list == [alarm] + old(list) && alarm.due == now + delay + 1
      ensures rc == Started ==> (Valid() <==> CanKeep(delay, now))
      ensures rc == Started ==> (OnTime(alarm.Timer(), alarm.due, now) <==> CanKeep(delay, now))
    {
      if tickRate == 0 {
        return NotSupported;
      }
      if alarm == null {
        return InvalidArgument;
      }
      ghost var others, timers, dues := list, TimersOf(list), DuesOf(list);
      Register(alarm, delay);
      StartedIsValid(alarm, delay, others, timers, dues);
      StartedIsOnTime(alarm, delay);
      rc := Started;
    }

    lemma StartedIsValid(alarm: Alarm, delay: int, others: seq<Alarm>, timers: seq<Timer>, dues: seq<int>)
      requires Shaped() && 0 <= delay < TWO32
      requires alarm.due == now + delay + 1 && alarm.Timer() == Arm(delay, U32(now))
      requires list == [alarm] + others && |others| == |timers| && AllRepresent(timers, dues, now)
      requires UntouchedFrom(0, others, timers, dues)
      ensures Valid() <==> CanKeep(delay, now)
    {
      OneMoreListed(alarm, others, timers, dues, now);
      ArmIsExact(delay, now);
    }

    lemma StartedIsOnTime(alarm: Alarm, delay: int)
      requires 0 <= delay < TWO32 && alarm.due == now + delay + 1 && alarm.Timer() == Arm(delay, U32(now))
      ensures OnTime(alarm.Timer(), alarm.due, now) <==> CanKeep(delay, now)
    {
      StartedAlarmIsOnTimeIff(delay, now);
    }

    /** One visit of `alt_tick` to a listed alarm. */
    method Visit(alarm: Alarm, answer: int, ghost k: nat) returns (fired: bool)
      requires Shaped() && k < |list| && list[k] == alarm && now > 0
      requires Represents(alarm.Timer(), alarm.due, now - 1) && 0 <= answer < TWO32
      modifies `list, alarm, head`next, head`previous, list`next, list`previous
      ensures Shaped() && now == old(now)
      ensures fired <==> old(alarm.due) == now
      ensures list == if fired && answer == 0 then Without(old(list), k) else old(list)
      ensures Handled(alarm.Timer(), alarm.due, old(alarm.due), now, answer)
      ensures fired && answer == 0 ==> Alone(alarm)
    {
      TickIsExact(alarm.Timer(), alarm.due, now - 1);
      if alarm.rollover && nticks == 0 {
        alarm.rollover := false;
      }
      fired := alarm.time <= nticks && !alarm.rollover;
      if fired {
        if answer == 0 {
          AlarmStop(alarm, k);
        } else {
          RearmIsExact(answer, now);
          alarm.time := U32(alarm.time + answer);
          if alarm.time < nticks {
            alarm.rollover := true;
          }
          alarm.due := alarm.due + answer;
        }
      }
    }

    /** The same visit, seen from all the alarms listed at entry: those that have left stay alone. */
    method VisitOneOf(alarm: Alarm, answer: int, ghost k: nat, ghost entry: seq<Alarm>) returns (fired: bool)
      requires Shaped() && k < |list| && list[k] == alarm && now > 0
      requires Represents(alarm.Timer(), alarm.due, now - 1) && 0 <= answer < TWO32
      requires head !in entry && GoneAreAlone(entry, list)
      modifies `list, alarm, head`next, head`previous, list`next, list`previous
      ensures Shaped() && now == old(now)
      ensures fired <==> old(alarm.due) == now
      ensures list == if fired && answer == 0 then Without(old(list), k) else old(list)
      ensures Handled(alarm.Timer(), alarm.due, old(alarm.due), now, answer)
      ensures GoneAreAlone(entry, list)
    {
      ghost var before := list;
      LosesOnlyOne(list, k);
      fired := Visit(alarm, answer, k);
      forall a | a in entry && a !in list
        ensures Alone(a)
      {
        if a !in before {
          assert old(Alone(a));
        }
      }
    }

    /** One step of the walk: note the next alarm, visit this one, move on. */
    method WalkOn(alarm: Alarm, answer: Alarm -> int, ghost i: nat, ghost entry: seq<Alarm>, ghost dues: seq<int>,
                  ghost nodes: set<Alarm>)
      returns (next: Alarm, fired: bool)
      requires Shaped() && now > 0 && Walked(list, i, entry, dues, now, answer)
      requires i < |entry| && entry[i] == alarm && 0 <= answer(alarm) < TWO32 && head !in entry
      requires nodes == set a | a in entry
      requires Represents(alarm.Timer(), dues[i], now - 1) && alarm.due == dues[i] && GoneAreAlone(entry, list)
      modifies `list, alarm, head`next, head`previous, nodes`next, nodes`previous
      ensures Shaped() && now == old(now) && Walked(list, i + 1, entry, dues, now, answer)
      ensures next == if i + 1 < |entry| then entry[i + 1] else head
      ensures fired <==> dues[i] == now
      ensures Handled(alarm.Timer(), alarm.due, dues[i], now, answer(alarm))
      ensures GoneAreAlone(entry, list)
    {
      ghost var stay := Staying(entry[..i], dues[..i], now, answer);
      ghost var before := list;
      ListAround(before, stay, entry, i);
      NextOf(|stay|);
      next := alarm.next;
      assert forall a :: a in list ==> a in nodes;
      fired := VisitOneOf(alarm, answer(alarm), |stay|, entry);
      WalkedOneMore(before, list, i, entry, dues, now, answer);
    }

    /** The state of a walk that has reached the `i`-th alarm listed at entry. */
    ghost predicate Walking(i: nat, alarm: Alarm, called: seq<Alarm>, entry: seq<Alarm>, timers: seq<Timer>,
                            dues: seq<int>, answer: Alarm -> int)
      reads this, head, list, entry
    {
      && i <= |entry| == |timers| == |dues| && Distinct(entry) && head !in entry && now > 0
      && Shaped()
      && alarm == (if i < |entry| then entry[i] else head)
      && called == Called(entry[..i], dues[..i], now)
      && Walked(list, i, entry, dues, now, answer)
      && UntouchedFrom(i, entry, timers, dues)
      && HandledUpTo(i, entry, dues, now, answer)
      && GoneAreAlone(entry, list)
    }

    /** The same step, seen from the whole walk. */
    method WalkStep(alarm: Alarm, answer: Alarm -> int, called0: seq<Alarm>, ghost i: nat, ghost entry: seq<Alarm>,
                    ghost timers: seq<Timer>, ghost dues: seq<int>, ghost nodes: set<Alarm>)
      returns (next: Alarm, called: seq<Alarm>)
      requires Walking(i, alarm, called0, entry, timers, dues, answer)
      requires i < |entry| && 0 <= answer(alarm) < TWO32 && Represents(timers[i], dues[i], now - 1)
      requires nodes == set a | a in entry
      modifies `list, head`next, head`previous, nodes
      ensures now == old(now) && Walking(i + 1, next, called, entry, timers, dues, answer)
    {
      assert forall j :: 0 <= j < |entry| && j != i ==> entry[j] != alarm;
      var fired;
      next, fired := WalkOn(alarm, answer, i, entry, dues, nodes);
      WalkLists(i, entry, dues, now, answer);
      called := if fired then called0 + [alarm] else called0;
      assert forall j :: 0 <= j < |entry| && j != i ==>
          entry[j].due == old(entry[j].due) && entry[j].Timer() == old(entry[j].Timer());
    }

    /** Counts the tick on the wrapping counter. */
    method CountTick()
      requires Shaped()
      modifies `nticks, `now
      ensures Shaped() && now == old(now) + 1
    {
      WordStep(now);
      nticks := U32(nticks + 1);
      now := now + 1;
    }

    lemma WalkMayBegin(entry: seq<Alarm>, timers: seq<Timer>, dues: seq<int>, answer: Alarm -> int)
      requires Shaped() && now > 0 && entry == list && timers == TimersOf(list) && dues == DuesOf(list)
      ensures Walking(0, head.next, [], entry, timers, dues, answer)
    {
      FirstIsNext();
      WalkBegins(entry, dues, now, answer);
    }

    /** What a finished walk has done. */
    lemma WalkIsOver(called: seq<Alarm>, entry: seq<Alarm>, timers: seq<Timer>, dues: seq<int>, answer: Alarm -> int)
      requires |entry| == |dues| && Walking(|entry|, head, called, entry, timers, dues, answer)
      ensures Valid() && AllHandled(entry, dues, now, answer)
      ensures called == Called(entry, dues, now) && list == Staying(entry, dues, now, answer)
    {
      WalkEnds(list, entry, dues, now, answer);
    }

    /** The loop of `alt_tick`: visits every alarm that was listed at entry, once and in order, although an
        alarm may unlink itself while it is being visited. */
    method WalkAll(answer: Alarm -> int, ghost entry: seq<Alarm>, ghost timers: seq<Timer>, ghost dues: seq<int>,
                   ghost nodes: set<Alarm>)
      returns (called: seq<Alarm>)
      requires Shaped() && now > 0 && entry == list && timers == TimersOf(list) && dues == DuesOf(list)
      requires AllRepresent(timers, dues, now - 1)
      requires forall j :: 0 <= j < |entry| ==> 0 <= answer(entry[j]) < TWO32
      requires nodes == set a | a in entry
      modifies `list, head`next, head`previous, nodes
      ensures Valid() && now == old(now)
      ensures called == Called(entry, dues, now) && list == Staying(entry, dues, now, answer)
      ensures AllHandled(entry, dues, now, answer) && GoneAreAlone(entry, list)
    {
      WalkMayBegin(entry, timers, dues, answer);
      var alarm := head.next;
      called := [];
      ghost var i := 0;
      while alarm != head
        invariant now == old(now) && i <= |entry|
        invariant Walking(i, alarm, called, entry, timers, dues, answer)
        decreases |entry| - i
      {
        alarm, called := WalkStep(alarm, answer, called, i, entry, timers, dues, nodes);
        i := i + 1;
      }
      WalkIsOver(called, entry, timers, dues, answer);
    }

    /** `alt_tick`: counts the tick, then walks along the list. */
    method Tick(answer: Alarm -> int) returns (called: seq<Alarm>)
      requires Valid()
      requires forall a :: a in list ==> 0 <= answer(a) < TWO32
      modifies this, head, set a | a in list
      ensures Valid() && now == old(now) + 1
      ensures called == Called(old(list), old(DuesOf(list)), now)
      ensures list == Staying(old(list), old(DuesOf(list)), now, answer)
      ensures AllHandled(old(list), old(DuesOf(list)), now, answer)
      ensures GoneAreAlone(old(list), list)
    {
      ghost var entry, timers, dues, nodes := list, TimersOf(list), DuesOf(list), set a | a in list;
      CountTick();
      called := WalkAll(answer, entry, timers, dues, nodes);
    }

    lemma NextOf(k: nat)
      requires Linked([head] + list + [head]) && k < |list|
      ensures list[k].next == if k + 1 < |list| then list[k + 1] else head
    {
      var ring := [head] + list + [head];
      assert ring[k + 1].next == ring[k + 2];
    }
  }
}
