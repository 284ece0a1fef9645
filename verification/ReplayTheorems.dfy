/** What the replay window promises over every run. */
module ReplayTheorems {
  import opened Words
  import opened ReplaySpec
  import opened ReplayRuns
  import ReplayWindow

  lemma {:induction false} VerdictsAfter(es: seq<Event>, e: Event, timeout: nat)
    ensures var s := StateAfter(es, timeout);
      && StateAfter(es + [e], timeout) == Receive(s, e.id, e.time, Jiffies(e.now), timeout)
      && Verdicts(es + [e], timeout) == Verdicts(es, timeout) + [Judge(s, e.id, e.time, Jiffies(e.now))]
  {
    hide Judge, Receive;
    var more := es + [e];
    assert forall k :: 0 <= k <= |es| ==> more[..k] == es[..k];
    assert es[..|es|] == es;
  }

  lemma {:induction false} NoCallsYet(timeout: nat)
    ensures StateAfter([], timeout) == FRESH_RECEIVER && Verdicts([], timeout) == []
  {
  }

  /** The bitmap, driven by any run of calls, answers as the accepted packets alone dictate. */
  method DriveWindow(es: seq<Event>, timeout: nat) returns (vs: seq<Verdict>)
    ensures vs == Verdicts(es, timeout)
    ensures Clocked(es) && timeout < LONG_SIZE / 2 ==> vs == LogVerdicts(es, timeout)
  {
    hide Judge, ReplaySpec.Receive, LogVerdict, StateAfter, Verdicts;
    var window := new ReplayWindow.PktidRecv(timeout);
    vs := [];
    assert window.Contents() == StateAfter([], timeout) && vs == Verdicts([], timeout) by { NoCallsYet(timeout); }
    for k := 0 to |es|
      invariant window.Valid() && window.timeout == timeout && fresh(window) && fresh(window.history)
      invariant window.Contents() == StateAfter(es[..k], timeout)
      invariant vs == Verdicts(es[..k], timeout)
    {
      var e := es[k];
      VerdictsAfter(es[..k], e, timeout);
      assert es[..k+1] == es[..k] + [e];
      var v := window.Receive(e.id, e.time, Jiffies(e.now));
      vs := vs + [v];
    }
    assert es[..|es|] == es;
    if Clocked(es) && timeout < LONG_SIZE / 2 {
      VerdictsAreExact(es, timeout);
    }
  }

  /** The receiver `s` would not take stamp and ID of `e` again. */
  ghost predicate Remembers(s: Receiver, e: Event) {
    e.time < s.time || (e.time == s.time && e.id in s.seen && e.id <= s.id)
  }

  lemma MemoryLasts(s: Receiver, timeout: nat, a: Event, e: Event)
    requires Remembers(s, a) || (a == e && Judge(s, e.id, e.time, Jiffies(e.now)) == Accepted)
    ensures Remembers(Receive(s, e.id, e.time, Jiffies(e.now), timeout), a)
  {
  }

  lemma {:induction false} AcceptedIsRemembered(es: seq<Event>, timeout: nat, i: nat)
    requires i < |es| && Verdicts(es, timeout)[i] == Accepted
    ensures Remembers(StateAfter(es, timeout), es[i])
  {
    hide Judge, Receive, Remembers;
    var n := |es| - 1;
    if i < n {
      assert es[..n][..i] == es[..i];
      AcceptedIsRemembered(es[..n], timeout, i);
    }
    MemoryLasts(StateAfter(es[..n], timeout), timeout, es[i], es[n]);
  }

  /** No stamp and ID pair is accepted twice, whatever the clock does. */
  lemma NoReplay(es: seq<Event>, timeout: nat, i: nat, j: nat)
    requires i < j < |es|
    requires Verdicts(es, timeout)[i] == Verdicts(es, timeout)[j] == Accepted
    ensures es[i].time != es[j].time || es[i].id != es[j].id
  {
    var before := es[..j];
    assert before[..i] == es[..i];
    AcceptedIsRemembered(before, timeout, i);
  }

  /** The calls picked out by `keep`, in order. */
  ghost function Thin<T>(xs: seq<T>, keep: seq<bool>): seq<T>
    requires |keep| == |xs|
  {
    if xs == [] then []
    else
      var n := |xs| - 1;
      Thin(xs[..n], keep[..n]) + (if keep[n] then [xs[n]] else [])
  }

  lemma ClockedAfter(es: seq<Event>, e: Event)
    requires Clocked(es)
    requires forall x :: x in es ==> 0 <= e.now - x.now < LONG_SIZE / 2
    ensures Clocked(es + [e])
  {
  }

  lemma {:induction false} ThinKeepsOrder(es: seq<Event>, keep: seq<bool>)
    requires |keep| == |es| && Clocked(es)
    ensures Clocked(Thin(es, keep))
    ensures forall e :: e in Thin(es, keep) ==> e in es
  {
    if es != [] {
      var n := |es| - 1;
      ThinKeepsOrder(es[..n], keep[..n]);
      var before := Thin(es[..n], keep[..n]);
      forall e | e in before ensures 0 <= es[n].now - e.now < LONG_SIZE / 2 {
        assert e in es[..n];
      }
      ClockedAfter(before, es[n]);
    }
  }

  lemma {:induction false} LogAfter(es: seq<Event>, e: Event, timeout: nat)
    ensures |LogVerdicts(es, timeout)| == |es|
    ensures var log := AcceptedLog(es, timeout);
      && AcceptedLog(es + [e], timeout) == (if Acceptable(log, timeout, e) then log + [e] else log)
      && LogVerdicts(es + [e], timeout) == LogVerdicts(es, timeout) + [LogVerdict(log, timeout, e)]
  {
    var more := es + [e];
    assert forall k :: 0 <= k <= |es| ==> more[..k] == es[..k];
    assert es[..|es|] == es;
  }

  lemma {:induction false} ThinAfter<T>(xs: seq<T>, keep: seq<bool>, x: T, kept: bool)
    requires |keep| == |xs|
    ensures Thin(xs + [x], keep + [kept]) == if kept then Thin(xs, keep) + [x] else Thin(xs, keep)
  {
    assert (xs + [x])[..|xs|] == xs && (keep + [kept])[..|xs|] == keep;
  }

  /** The log of accepted packets and every kept verdict are as they were. */
  ghost predicate Unaffected(es: seq<Event>, keep: seq<bool>, timeout: nat)
    requires |keep| == |es|
  {
    && AcceptedLog(Thin(es, keep), timeout) == AcceptedLog(es, timeout)
    && LogVerdicts(Thin(es, keep), timeout) == Thin(LogVerdicts(es, timeout), keep)
  }

  lemma {:induction false} UnaffectedAfter(es: seq<Event>, keep: seq<bool>, e: Event, kept: bool, timeout: nat)
    requires |keep| == |es| && Unaffected(es, keep, timeout)
    requires !kept ==> !Acceptable(AcceptedLog(es, timeout), timeout, e)
    ensures Unaffected(es + [e], keep + [kept], timeout)
  {
    hide Acceptable, AcceptedLog, LogVerdict, LogVerdicts, Thin;
    LogAfter(es, e, timeout);
    LogAfter(Thin(es, keep), e, timeout);
    ThinAfter(es, keep, e, kept);
    ThinAfter(LogVerdicts(es, timeout), keep, LogVerdict(AcceptedLog(es, timeout), timeout, e), kept);
  }

  lemma {:induction false} ThinLog(es: seq<Event>, keep: seq<bool>, timeout: nat)
    requires |keep| == |es|
    requires forall k :: 0 <= k < |es| && !keep[k] ==> LogVerdicts(es, timeout)[k] != Accepted
    ensures Unaffected(es, keep, timeout)
  {
    if es != [] {
      hide Acceptable, AcceptedLog, Unaffected;
      var n := |es| - 1;
      assert es == es[..n] + [es[n]] && keep == keep[..n] + [keep[n]];
      assert forall k :: 0 <= k < n ==> es[..n][..k] == es[..k];
      ThinLog(es[..n], keep[..n], timeout);
      UnaffectedAfter(es[..n], keep[..n], es[n], keep[n], timeout);
    }
  }

  /** Rejected packets are invisible: without them every other packet gets the same verdict. */
  lemma {:induction false} RejectedAreInvisible(es: seq<Event>, keep: seq<bool>, timeout: nat)
    requires |keep| == |es| && Clocked(es) && timeout < LONG_SIZE / 2
    requires forall k :: 0 <= k < |es| && !keep[k] ==> Verdicts(es, timeout)[k] != Accepted
    ensures Verdicts(Thin(es, keep), timeout) == Thin(Verdicts(es, timeout), keep)
  {
    VerdictsAreExact(es, timeout);
    ThinKeepsOrder(es, keep);
    VerdictsAreExact(Thin(es, keep), timeout);
    ThinLog(es, keep, timeout);
  }

  ghost predicate Carried(es: seq<Event>, id: u32) {
    exists i :: 0 <= i < |es| && es[i].id == id
  }

  /** Call `k` is the first one carrying its ID. */
  ghost predicate FirstCopy(es: seq<Event>, k: nat)
    requires k < |es|
  {
    !Carried(es[..k], es[k].id)
  }

  /** After `es` comes a real ID of the same stamp, less than a window behind every earlier one,
      and less than `timeout` ticks after some new ID came in. */
  ghost predicate Follows(es: seq<Event>, e: Event, timeout: nat) {
    && e.id != 0
    && (forall i :: 0 <= i < |es| ==> es[i].id - e.id < REPLAY_WINDOW_SIZE)
    && (es != [] ==>
      && e.time == es[0].time
      && exists i :: 0 <= i < |es| && FirstCopy(es, i) && e.now - es[i].now < timeout)
  }

  /** Any reordering and duplication that stays within the window and is never silent for too long. */
  ghost predicate Benign(es: seq<Event>, timeout: nat) {
    Clocked(es) && forall k :: 0 <= k < |es| ==> Follows(es[..k], es[k], timeout)
  }

  /** The log names the IDs that came in, reaches up to the latest new one and has no silence in it. */
  ghost predicate Logged(es: seq<Event>, log: seq<Event>, timeout: nat) {
    && (log == [] <==> es == [])
    && (forall x :: Carried(log, x) <==> Carried(es, x))
    && (forall i :: 0 <= i < |log| ==> log[i].time == es[0].time)
    && (forall i :: 0 <= i < |es| && FirstCopy(es, i) ==> es[i].now <= log[|log|-1].now)
    && (forall k :: !Quiet(log, timeout, k))
  }

  lemma CarriedAfter(es: seq<Event>, e: Event, x: u32)
    ensures Carried(es + [e], x) <==> Carried(es, x) || e.id == x
  {
    var more := es + [e];
    if i :| 0 <= i < |es| && es[i].id == x {
      assert more[i] == es[i];
    }
    assert more[|es|] == e;
  }

  lemma FirstCopyAfter(es: seq<Event>, e: Event, k: nat)
    requires k <= |es|
    ensures FirstCopy(es + [e], k) <==> (if k < |es| then FirstCopy(es, k) else !Carried(es, e.id))
  {
    assert (es + [e])[..k] == es[..k];
    if k == |es| {
      assert es[..k] == es;
    }
  }

  lemma NeverSilent(es: seq<Event>, e: Event, log: seq<Event>, timeout: nat, k: nat)
    requires Logged(es, log, timeout) && Follows(es, e, timeout)
    ensures !Quiet(log + [e], timeout, k)
  {
    if 0 < k < |log| {
      assert !Quiet(log, timeout, k);
      assert (log + [e])[k] == log[k] && (log + [e])[k-1] == log[k-1];
    }
  }

  lemma FirstCopyAccepted(es: seq<Event>, e: Event, log: seq<Event>, timeout: nat)
    requires Logged(es, log, timeout) && Follows(es, e, timeout)
    ensures Acceptable(log, timeout, e) <==> !Carried(es, e.id)
  {
    forall k: nat ensures !Quiet(log + [e], timeout, k) {
      NeverSilent(es, e, log, timeout, k);
    }
    forall i | 0 <= i < |log| ensures log[i].id - e.id < REPLAY_WINDOW_SIZE {
      assert Carried(log, log[i].id);
      assert Carried(es, log[i].id);
    }
    assert Carried(log, e.id) <==> Carried(es, e.id);
  }

  ghost function Extended(es: seq<Event>, e: Event, log: seq<Event>): seq<Event> {
    if Carried(es, e.id) then log else log + [e]
  }

  lemma ExtendedCarries(es: seq<Event>, e: Event, log: seq<Event>)
    requires forall x :: Carried(log, x) <==> Carried(es, x)
    ensures forall x :: Carried(Extended(es, e, log), x) <==> Carried(es + [e], x)
  {
    hide Carried;
    forall x ensures Carried(Extended(es, e, log), x) <==> Carried(es + [e], x) {
      CarriedAfter(es, e, x);
      CarriedAfter(log, e, x);
    }
  }

  lemma ExtendedStamps(es: seq<Event>, e: Event, log: seq<Event>)
    requires log == [] <==> es == []
    requires es != [] ==> e.time == es[0].time && forall i :: 0 <= i < |log| ==> log[i].time == es[0].time
    ensures Extended(es, e, log) != []
    ensures forall i :: 0 <= i < |Extended(es, e, log)| ==> Extended(es, e, log)[i].time == (es + [e])[0].time
  {
  }

  lemma ExtendedReachesUp(es: seq<Event>, e: Event, log: seq<Event>, i: nat)
    requires Clocked(es + [e]) && (log == [] <==> es == [])
    requires i < |es| && FirstCopy(es, i) ==> es[i].now <= log[|log|-1].now
    requires i <= |es| && FirstCopy(es + [e], i)
    ensures Extended(es, e, log) != []
    ensures (es + [e])[i].now <= Extended(es, e, log)[|Extended(es, e, log)|-1].now
  {
    assert es == [] ==> !Carried(es, e.id);
    FirstCopyAfter(es, e, i);
    hide Carried, FirstCopy;
    assert i < |es| ==> (es + [e])[i].now <= (es + [e])[|es|].now;
  }

  lemma LogKeepsUp(es: seq<Event>, e: Event, log: seq<Event>, timeout: nat)
    requires Logged(es, log, timeout) && Follows(es, e, timeout) && Clocked(es + [e])
    ensures Logged(es + [e], Extended(es, e, log), timeout)
  {
    forall k: nat ensures !Quiet(Extended(es, e, log), timeout, k) {
      NeverSilent(es, e, log, timeout, k);
    }
    hide Carried, Quiet, FirstCopy, Extended, Clocked;
    ExtendedCarries(es, e, log);
    ExtendedStamps(es, e, log);
    forall i | 0 <= i <= |es| && FirstCopy(es + [e], i)
      ensures (es + [e])[i].now <= Extended(es, e, log)[|Extended(es, e, log)|-1].now
    {
      ExtendedReachesUp(es, e, log, i);
    }
  }

  lemma {:induction false} BenignLog(es: seq<Event>, timeout: nat)
    requires Benign(es, timeout)
    ensures Logged(es, AcceptedLog(es, timeout), timeout)
  {
    hide Acceptable, Follows, Carried;
    if es != [] {
      var n := |es| - 1;
      var before, e := es[..n], es[n];
      assert forall k :: 0 <= k < n ==> before[..k] == es[..k];
      assert es == before + [e];
      BenignLog(before, timeout);
      assert Follows(es[..n], es[n], timeout);
      FirstCopyAccepted(before, e, AcceptedLog(before, timeout), timeout);
      LogKeepsUp(before, e, AcceptedLog(before, timeout), timeout);
    }
  }

  lemma FirstCopyDecides(es: seq<Event>, timeout: nat, k: nat)
    requires Benign(es, timeout) && k < |es|
    ensures LogVerdicts(es, timeout)[k] == Accepted <==> FirstCopy(es, k)
  {
    hide Acceptable, Carried, Follows, Clocked, Logged, AcceptedLog;
    var before := es[..k];
    assert Clocked(before) by { ClockedPrefix(es, k); }
    assert forall i :: 0 <= i < k ==> before[..i] == es[..i];
    BenignLog(before, timeout);
    FirstCopyAccepted(before, es[k], AcceptedLog(before, timeout), timeout);
  }

  lemma ClockedPrefix(es: seq<Event>, k: nat)
    requires Clocked(es) && k <= |es|
    ensures Clocked(es[..k])
  {
  }

  /** Under any such reordering and duplication, a packet is accepted if and only if it is the first copy. */
  lemma ExactlyOnce(es: seq<Event>, timeout: nat)
    requires Benign(es, timeout) && timeout < LONG_SIZE / 2
    ensures forall k :: 0 <= k < |es| ==> (Verdicts(es, timeout)[k] == Accepted <==> FirstCopy(es, k))
  {
    VerdictsAreExact(es, timeout);
    forall k | 0 <= k < |es| ensures LogVerdicts(es, timeout)[k] == Accepted <==> FirstCopy(es, k) {
      FirstCopyDecides(es, timeout, k);
    }
  }
}
