/** Whole runs of the replay check, judged by nothing but the log of accepted packets. */
module ReplayRuns {
  import opened Words
  import opened ReplaySpec

  /** One call: the ID and time stamp of a packet, and the clock ticks when it arrived. */
  datatype Event = Event(id: u32, time: u32, now: nat)

  /** No packet was accepted for `timeout` ticks before number `k`. */
  ghost predicate Quiet(log: seq<Event>, timeout: nat, k: nat) {
    0 < k < |log| && log[k].now - log[k-1].now >= timeout
  }

  /** Among the first `k` there is one with stamp `t` and an ID of at least `x`. */
  ghost predicate Reached(log: seq<Event>, k: nat, t: u32, x: u32) {
    exists i :: 0 <= i < k && i < |log| && log[i].time == t && log[i].id >= x
  }

  /** ID `x` was reached before a silence. */
  ghost predicate Silenced(log: seq<Event>, timeout: nat, t: u32, x: u32) {
    exists k :: Quiet(log, timeout, k) && Reached(log, k, t, x)
  }

  /** The rule in terms of the accepted packets alone. */
  ghost predicate Acceptable(log: seq<Event>, timeout: nat, e: Event) {
    && e.id != 0
    && (forall i :: 0 <= i < |log| ==> log[i].time <= e.time)
    && (|| (forall i :: 0 <= i < |log| && log[i].time == e.time ==> log[i].id < e.id)
        || (&& (forall i :: 0 <= i < |log| && log[i].time == e.time ==>
                  log[i].id != e.id && log[i].id - e.id < REPLAY_WINDOW_SIZE)
            && !Silenced(log + [e], timeout, e.time, e.id)))
  }

  ghost function LogVerdict(log: seq<Event>, timeout: nat, e: Event): Verdict {
    if Acceptable(log, timeout, e) then Accepted
    else if e.id != 0 && exists i :: 0 <= i < |log| && log[i].time > e.time then TimeWentBack
    else Invalid
  }

  /** The packets of a run that the rule lets through, oldest first. */
  ghost function AcceptedLog(es: seq<Event>, timeout: nat): seq<Event> {
    if es == [] then []
    else
      var log := AcceptedLog(es[..|es|-1], timeout);
      var e := es[|es|-1];
      if Acceptable(log, timeout, e) then log + [e] else log
  }

  ghost function LogVerdicts(es: seq<Event>, timeout: nat): seq<Verdict> {
    seq(|es|, k requires 0 <= k < |es| => LogVerdict(AcceptedLog(es[..k], timeout), timeout, es[k]))
  }

  /** The receiver after a run, and what it answered on the way. */
  function StateAfter(es: seq<Event>, timeout: nat): Receiver {
    if es == [] then FRESH_RECEIVER
    else
      var e := es[|es|-1];
      Receive(StateAfter(es[..|es|-1], timeout), e.id, e.time, Jiffies(e.now), timeout)
  }

  function Verdicts(es: seq<Event>, timeout: nat): seq<Verdict> {
    seq(|es|, k requires 0 <= k < |es| =>
      Judge(StateAfter(es[..k], timeout), es[k].id, es[k].time, Jiffies(es[k].now)))
  }

  /** The clock never steps back, and the run is shorter than half the range of `jiffies`. */
  ghost predicate Clocked(es: seq<Event>) {
    forall i, j :: 0 <= i < j < |es| ==> 0 <= es[j].now - es[i].now < LONG_SIZE / 2
  }

  ghost function Ids(log: seq<Event>, t: u32): set<u32> {
    set i | 0 <= i < |log| && log[i].time == t :: log[i].id
  }

  /** The receiver holds what the log says, `clock` being the tick of the latest call. */
  ghost predicate Holds(s: Receiver, log: seq<Event>, timeout: nat, clock: nat) {
    && (log == [] ==> s == FRESH_RECEIVER)
    && (forall i :: 0 <= i < |log| ==> log[i].time <= s.time && log[i].now <= clock)
    && s.seen == Ids(log, s.time)
    && (forall x :: x in s.seen ==> x <= s.id)
    && (log != [] ==>
      && s.id in s.seen
      && s.expire == Jiffies(log[|log|-1].now + timeout)
      && (forall x: u32 :: Silenced(log, timeout, s.time, x) ==> x <= s.floor)
      && (forall x: u32 :: 0 < x <= s.floor ==> Silenced(log + [Event(0, 0, clock)], timeout, s.time, x)))
  }

  lemma ReachedAfter(log: seq<Event>, e: Event, k: nat, t: u32, x: u32)
    requires k <= |log|
    ensures Reached(log + [e], k, t, x) <==> Reached(log, k, t, x)
  {
    if i :| 0 <= i < k && i < |log| && log[i].time == t && log[i].id >= x {
      assert (log + [e])[i] == log[i];
    }
  }

  lemma SilencedAfter(log: seq<Event>, e: Event, timeout: nat, t: u32, x: u32)
    requires log != []
    ensures Silenced(log + [e], timeout, t, x) <==>
            || Silenced(log, timeout, t, x)
            || (e.now - log[|log|-1].now >= timeout && Reached(log, |log|, t, x))
  {
    var more := log + [e];
    if k: nat :| Quiet(log, timeout, k) && Reached(log, k, t, x) {
      ReachedAfter(log, e, k, t, x);
      assert Quiet(more, timeout, k);
    }
    if k: nat :| Quiet(more, timeout, k) && Reached(more, k, t, x) {
      ReachedAfter(log, e, k, t, x);
      assert k < |log| ==> Quiet(log, timeout, k);
    }
    if e.now - log[|log|-1].now >= timeout && Reached(log, |log|, t, x) {
      ReachedAfter(log, e, |log|, t, x);
      assert Quiet(more, timeout, |log|);
    }
  }

  /** The floor in force is the highest ID before a silence, however long ago the last call was. */
  lemma FloorIsSilence(s: Receiver, log: seq<Event>, timeout: nat, clock: nat, e: Event, x: u32)
    requires Holds(s, log, timeout, clock) && log != [] && timeout < LONG_SIZE / 2
    requires clock <= e.now < log[|log|-1].now + LONG_SIZE / 2
    requires x > 0
    ensures x <= EffectiveFloor(s, Jiffies(e.now)) <==> Silenced(log + [e], timeout, s.time, x)
  {
    var last := log[|log|-1].now;
    TimeAfterEqIsOrder(e.now, last + timeout);
    SilencedAfter(log, e, timeout, s.time, x);
    SilencedAfter(log, Event(0, 0, clock), timeout, s.time, x);
    assert forall i :: 0 <= i < |log| && log[i].time == s.time ==> log[i].id in s.seen;
  }

  lemma JiffiesDeadline(now: nat, timeout: nat)
    ensures (Jiffies(now) + timeout) % LONG_SIZE == Jiffies(now + timeout)
  {
  }

  lemma IdsAfter(log: seq<Event>, e: Event, t: u32)
    ensures Ids(log + [e], t) == Ids(log, t) + (if e.time == t then {e.id} else {})
  {
    var more := log + [e];
    forall x | x in Ids(log, t) ensures x in Ids(more, t) {
      var i :| 0 <= i < |log| && log[i].time == t && log[i].id == x;
      assert more[i] == log[i];
    }
    assert more[|log|] == e;
  }

  /** Judging by the state and judging by the log give the same verdict. */
  lemma VerdictAgrees(s: Receiver, log: seq<Event>, timeout: nat, clock: nat, e: Event)
    requires Holds(s, log, timeout, clock) && timeout < LONG_SIZE / 2
    requires log != [] ==> clock <= e.now < log[|log|-1].now + LONG_SIZE / 2
    ensures Judge(s, e.id, e.time, Jiffies(e.now)) == LogVerdict(log, timeout, e)
  {
    if e.id != 0 && log != [] {
      FloorIsSilence(s, log, timeout, clock, e, e.id);
      assert forall i :: 0 <= i < |log| && log[i].time == s.time ==> log[i].id in s.seen;
      var top :| 0 <= top < |log| && log[top].time == s.time && log[top].id == s.id;
    }
  }

  lemma FloorFollows(s: Receiver, log: seq<Event>, timeout: nat, clock: nat, e: Event)
    requires Holds(s, log, timeout, clock) && log != [] && timeout < LONG_SIZE / 2
    requires clock <= e.now < log[|log|-1].now + LONG_SIZE / 2
    ensures var floor := EffectiveFloor(s, Jiffies(e.now));
      && (forall x: u32 :: Silenced(log + [e], timeout, s.time, x) ==> x <= floor)
      && (forall x: u32 :: 0 < x <= floor ==> Silenced(log + [e], timeout, s.time, x))
  {
    forall x: u32 | x > 0
      ensures x <= EffectiveFloor(s, Jiffies(e.now)) <==> Silenced(log + [e], timeout, s.time, x)
    {
      FloorIsSilence(s, log, timeout, clock, e, x);
    }
  }

  lemma RejectionHolds(s: Receiver, log: seq<Event>, timeout: nat, clock: nat, e: Event)
    requires Holds(s, log, timeout, clock) && timeout < LONG_SIZE / 2
    requires clock <= e.now && (log != [] ==> e.now < log[|log|-1].now + LONG_SIZE / 2)
    ensures Holds(s.(floor := EffectiveFloor(s, Jiffies(e.now))), log, timeout, e.now)
  {
    if log != [] {
      FloorFollows(s, log, timeout, clock, e);
      forall x: u32
        ensures Silenced(log, timeout, s.time, x) ==> Silenced(log + [e], timeout, s.time, x)
        ensures Silenced(log + [e], timeout, s.time, x) <==> Silenced(log + [Event(0, 0, e.now)], timeout, s.time, x)
      {
        SilencedAfter(log, e, timeout, s.time, x);
        SilencedAfter(log, Event(0, 0, e.now), timeout, s.time, x);
      }
    }
  }

  lemma NewEpochHolds(s: Receiver, log: seq<Event>, timeout: nat, clock: nat, e: Event)
    requires Holds(s, log, timeout, clock) && e.time > s.time && clock <= e.now
    ensures Holds(Receiver(e.time, e.id, 0, Jiffies(e.now + timeout), {e.id}), log + [e], timeout, e.now)
  {
    var more := log + [e];
    IdsAfter(log, e, e.time);
    assert Ids(log, e.time) == {};
    forall x: u32, k | Quiet(more, timeout, k) ensures !Reached(more, k, e.time, x) {
    }
  }

  lemma SameEpochHolds(s: Receiver, log: seq<Event>, timeout: nat, clock: nat, e: Event)
    requires Holds(s, log, timeout, clock) && timeout < LONG_SIZE / 2
    requires clock <= e.now && (log != [] ==> e.now < log[|log|-1].now + LONG_SIZE / 2)
    requires e.time == s.time
    ensures Holds(
      Receiver(e.time, if e.id > s.id then e.id else s.id, EffectiveFloor(s, Jiffies(e.now)),
               Jiffies(e.now + timeout), s.seen + {e.id}),
      log + [e], timeout, e.now)
  {
    var more := log + [e];
    IdsAfter(log, e, e.time);
    if log != [] {
      FloorFollows(s, log, timeout, clock, e);
    } else {
      assert forall k :: !Quiet(more, timeout, k);
    }
    forall x: u32
      ensures Silenced(more, timeout, s.time, x) ==> Silenced(more + [Event(0, 0, e.now)], timeout, s.time, x)
    {
      SilencedAfter(more, Event(0, 0, e.now), timeout, s.time, x);
    }
  }

  lemma StepHolds(s: Receiver, log: seq<Event>, timeout: nat, clock: nat, e: Event)
    requires Holds(s, log, timeout, clock) && timeout < LONG_SIZE / 2
    requires clock <= e.now && (log != [] ==> e.now < log[|log|-1].now + LONG_SIZE / 2)
    ensures Holds(Receive(s, e.id, e.time, Jiffies(e.now), timeout),
                  if Acceptable(log, timeout, e) then log + [e] else log, timeout, e.now)
  {
    VerdictAgrees(s, log, timeout, clock, e);
    JiffiesDeadline(e.now, timeout);
    if !Acceptable(log, timeout, e) {
      RejectionHolds(s, log, timeout, clock, e);
    } else if e.time > s.time {
      NewEpochHolds(s, log, timeout, clock, e);
    } else {
      SameEpochHolds(s, log, timeout, clock, e);
    }
  }

  /** The log holds calls of the run only. */
  lemma {:induction false} LogOfRun(es: seq<Event>, timeout: nat)
    ensures forall a :: a in AcceptedLog(es, timeout) ==> a in es
  {
    if es != [] {
      LogOfRun(es[..|es|-1], timeout);
    }
  }

  ghost function ClockOf(es: seq<Event>): nat {
    if es == [] then 0 else es[|es|-1].now
  }

  lemma {:induction false} RunClock(before: seq<Event>, e: Event, timeout: nat)
    requires Clocked(before + [e])
    ensures var log := AcceptedLog(before, timeout);
      ClockOf(before) <= e.now && (log != [] ==> e.now < log[|log|-1].now + LONG_SIZE / 2)
  {
    var es, log := before + [e], AcceptedLog(before, timeout);
    LogOfRun(before, timeout);
    assert es[|before|] == e;
    if before != [] {
      assert es[|before|-1].now <= es[|before|].now;
    }
    if log != [] {
      assert log[|log|-1] in before;
      var i :| 0 <= i < |before| && before[i] == log[|log|-1];
      assert es[|before|].now - es[i].now < LONG_SIZE / 2;
    }
  }

  lemma {:induction false} RunHolds(es: seq<Event>, timeout: nat)
    requires Clocked(es) && timeout < LONG_SIZE / 2
    ensures Holds(StateAfter(es, timeout), AcceptedLog(es, timeout), timeout, ClockOf(es))
  {
    if es != [] {
      var before, e := es[..|es|-1], es[|es|-1];
      RunHolds(before, timeout);
      assert es == before + [e];
      RunClock(before, e, timeout);
      StepHolds(StateAfter(before, timeout), AcceptedLog(before, timeout), timeout, ClockOf(before), e);
    }
  }

  lemma {:induction false} VerdictIsExact(before: seq<Event>, e: Event, timeout: nat)
    requires Clocked(before + [e]) && timeout < LONG_SIZE / 2
    ensures Judge(StateAfter(before, timeout), e.id, e.time, Jiffies(e.now))
         == LogVerdict(AcceptedLog(before, timeout), timeout, e)
  {
    hide Judge, LogVerdict, Holds, StateAfter, AcceptedLog;
    assert forall i :: 0 <= i < |before| ==> (before + [e])[i] == before[i];
    RunHolds(before, timeout);
    RunClock(before, e, timeout);
    VerdictAgrees(StateAfter(before, timeout), AcceptedLog(before, timeout), timeout, ClockOf(before), e);
  }

  /** Over every run the receiver answers exactly as the log of accepted packets dictates. */
  lemma VerdictsAreExact(es: seq<Event>, timeout: nat)
    requires Clocked(es) && timeout < LONG_SIZE / 2
    ensures Verdicts(es, timeout) == LogVerdicts(es, timeout)
  {
    hide Judge, LogVerdict, StateAfter, AcceptedLog;
    forall k | 0 <= k < |es| ensures Verdicts(es, timeout)[k] == LogVerdicts(es, timeout)[k] {
      assert es[..k] + [es[k]] == es[..k+1];
      VerdictIsExact(es[..k], es[k], timeout);
    }
  }
}
