/** What lookups, holds and grace periods amount to, told by the actions of a run alone. */
module KeyGrace {
  import opened Words
  import opened KeySlots
  import opened KeySlotTheorems
  import opened KeyLookups

  // Lookups with no store beside them

  ghost predicate IsStore(a: Action) {
    a.Install? || a.Delete? || a.SwapFirst? || a.SwapSecond? || a.Kill?
  }

  lemma OthersStoreNothing(st: State, a: Action)
    requires Enabled(st, a) && !IsStore(a)
    ensures Apply(st, a).stores == st.stores
  {
    hide GracePeriodOver, Wanted, Owned;
  }

  lemma {:induction false} NothingStored(tr: seq<State>, acts: seq<Action>, i: nat, j: nat)
    requires Run(tr, acts) && i <= j < |tr| && forall k :: i <= k < j ==> !IsStore(acts[k])
    ensures tr[j].stores == tr[i].stores
    decreases j
  {
    if i < j {
      hide Enabled, Apply;
      NothingStored(tr, acts, i, j - 1);
      assert StepAt(tr, acts, j - 1);
      OthersStoreNothing(tr[j-1], acts[j-1]);
    }
  }

  /** A reader keeps what it asked for and when it began. */
  lemma ReaderKeeps(st: State, a: Action, r: nat)
    requires Enabled(st, a) && r in st.readers && a != Leave(r)
    ensures r in Apply(st, a).readers
    ensures var reader, reader' := st.readers[r], Apply(st, a).readers[r];
      reader'.want == reader.want && reader'.since == reader.since && reader'.period == reader.period
  {
    if (a.LoadPrimary? || a.CheckPrimary? || a.LoadSecondary? || a.CheckSecondary? || a.TryHold?) && a.r == r {
      hide GracePeriodOver, Wanted, Owned;
    } else {
      OthersLeaveReader(st, a, r);
    }
  }

  lemma {:induction false} SectionKeeps(tr: seq<State>, acts: seq<Action>, r: nat, e: nat, i: nat)
    requires Section(tr, acts, r, e, i)
    ensures r in tr[i].readers && tr[i].readers[r].want == acts[e].want && tr[i].readers[r].since == tr[e].stores
  {
    assert StepAt(tr, acts, i - 1);
    if i == e + 1 {
      assert Apply(tr[e], acts[e]).readers[r].since == tr[e].stores;
    } else {
      hide Enabled, Apply;
      SectionKeeps(tr, acts, r, e, i - 1);
      ReaderKeeps(tr[i-1], acts[i-1], r);
    }
  }

  lemma SameVisible(st: State, st': State, want: Want)
    requires Inv(st) && SameView(st, st') && st.stores == st'.stores
    ensures Visible(st', want) == Visible(st, want)
  {
    NamedAreAlive(st);
  }

  /** In every run: a lookup, of whatever kind, beside which no pointer is stored returns exactly what was visible when
      it began and still is when it ends. */
  lemma LookupIsExact(tr: seq<State>, acts: seq<Action>, r: nat, e: nat, i: nat)
    requires Section(tr, acts, r, e, i) && (forall k :: e <= k < i ==> !IsStore(acts[k]))
    requires r in tr[i].readers && tr[i].readers[r].pc.Done?
    ensures tr[i].readers[r].pc.result == Visible(tr[e], acts[e].want) == Visible(tr[i], acts[e].want)
  {
    hide Visible, SameView;
    SectionKeeps(tr, acts, r, e, i);
    NothingStored(tr, acts, e, i);
    LookupIsRight(tr, acts, i, r);
    ViewLasts(tr, acts, e, i);
    RunKeepsInv(tr, acts, e);
    SameVisible(tr[e], tr[i], acts[e].want);
  }

  // Holds

  /** In every run: who found a slot gets it, and one more reference is then out, exactly if the count was not zero yet;
      otherwise it gets nothing and nothing is out. */
  lemma HandedOutIsHeld(tr: seq<State>, acts: seq<Action>, i: nat, r: nat, s: Ref)
    requires Run(tr, acts) && i < |acts| && acts[i] == TryHold(r)
    requires r in tr[i].readers && tr[i].readers[r].pc == Found(s)
    ensures r in tr[i+1].readers
    ensures tr[i+1].readers[r].pc == Done(if RefsOf(tr[i], s) > 0 then Some(s) else None)
    ensures var more := if RefsOf(tr[i], s) > 0 then 1 else 0;
      tr[i+1].holds[s] == tr[i].holds[s] + more && RefsOf(tr[i+1], s) == RefsOf(tr[i], s) + more
    ensures forall t: Ref :: t != s ==> tr[i+1].holds[t] == tr[i].holds[t] && RefsOf(tr[i+1], t) == RefsOf(tr[i], t)
  {
    assert StepAt(tr, acts, i);
  }

  // Grace periods

  /** Step `k` took the last reference to `s`. */
  ghost predicate RetiredBy(tr: seq<State>, acts: seq<Action>, k: nat, s: Ref)
    requires |tr| == |acts| + 1 && k < |acts|
  {
    s in tr[k].slots && s in tr[k+1].slots && tr[k].slots[s].fate.Alive? && tr[k+1].slots[s].fate.Retired?
  }

  /** Reader `r` was inside in state `k` and has not left since. */
  ghost predicate PresentSince(tr: seq<State>, acts: seq<Action>, r: nat, k: nat, i: nat)
    requires |tr| == |acts| + 1 && k < i < |tr|
  {
    r in tr[k].readers && forall m :: k <= m < i ==> acts[m] != Leave(r)
  }

  lemma RetiringStep(st: State, a: Action, s: Ref)
    requires Enabled(st, a) && s in st.slots && st.slots[s].fate.Alive?
    requires s in Apply(st, a).slots && Apply(st, a).slots[s].fate.Retired?
    ensures Apply(st, a).readers == st.readers && (a.Put? || a.DropOld?)
    ensures Apply(st, a).slots[s].fate.at == st.period + 1 == Apply(st, a).period
  {
    hide GracePeriodOver;
    if !ChangesSlots(a) {
      OthersKeepSlots(st, a);
    }
  }

  lemma RetiredStays(st: State, a: Action, s: Ref)
    requires Inv(st) && Enabled(st, a) && s in st.slots && st.slots[s].fate.Retired?
    ensures s in Apply(st, a).slots && st.period <= Apply(st, a).period
    ensures Apply(st, a).slots[s].fate == st.slots[s].fate || Apply(st, a).slots[s].fate.Freed?
  {
    hide GracePeriodOver, Conserved, ReadersSafe;
    if !ChangesSlots(a) {
      OthersKeepSlots(st, a);
      hide Owned, AfterReplace;
    }
  }

  /** Since `s` was retired, those still inside began before period `at`, and all others later. */
  ghost predicate Sorted(tr: seq<State>, acts: seq<Action>, k: nat, i: nat, at: nat)
    requires |tr| == |acts| + 1 && k < i < |tr|
  {
    && tr[i].period >= at
    && forall r: nat :: (PresentSince(tr, acts, r, k, i) ==> r in tr[i].readers)
         && (r in tr[i].readers ==> (tr[i].readers[r].period < at <==> PresentSince(tr, acts, r, k, i)))
  }

  lemma SortedFirst(tr: seq<State>, acts: seq<Action>, k: nat, s: Ref)
    requires Run(tr, acts) && k < |acts| && RetiredBy(tr, acts, k, s)
    ensures Sorted(tr, acts, k, k + 1, tr[k+1].slots[s].fate.at)
  {
    assert StepAt(tr, acts, k);
    RetiringStep(tr[k], acts[k], s);
    RunKeepsInv(tr, acts, k);
    hide Enabled, Apply, Conserved, FatesFit;
    forall r | r in tr[k].readers ensures tr[k].readers[r].period <= tr[k].period {
      assert ReaderSafe(tr[k], tr[k].readers[r]);
    }
  }

  lemma PresentStill(tr: seq<State>, acts: seq<Action>, r: nat, k: nat, i: nat)
    requires |tr| == |acts| + 1 && k < i < |acts|
    ensures PresentSince(tr, acts, r, k, i + 1) <==> PresentSince(tr, acts, r, k, i) && acts[i] != Leave(r)
  {
  }

  lemma ReadersStep(st: State, a: Action, r: nat)
    requires Enabled(st, a) && r in Apply(st, a).readers
    ensures r !in st.readers ==> a.Enter? && Apply(st, a).readers[r].period == st.period
    ensures r in st.readers ==> a != Leave(r) && Apply(st, a).readers[r].period == st.readers[r].period
  {
    if r in st.readers && a != Leave(r) {
      ReaderKeeps(st, a, r);
    } else {
      hide GracePeriodOver, Wanted, Owned, AfterReplace;
    }
  }

  lemma {:induction false} StaysSorted(tr: seq<State>, acts: seq<Action>, k: nat, i: nat, s: Ref)
    requires Run(tr, acts) && k < i < |tr| && RetiredBy(tr, acts, k, s)
    ensures s in tr[i].slots && Sorted(tr, acts, k, i, tr[k+1].slots[s].fate.at)
    ensures tr[i].slots[s].fate == tr[k+1].slots[s].fate || tr[i].slots[s].fate.Freed?
    decreases i
  {
    if i == k + 1 {
      SortedFirst(tr, acts, k, s);
    } else {
      var at := tr[k+1].slots[s].fate.at;
      StaysSorted(tr, acts, k, i - 1, s);
      RunKeepsInv(tr, acts, i - 1);
      assert StepAt(tr, acts, i - 1);
      hide Inv, Enabled, Apply, PresentSince;
      FateStep(tr[i-1], acts[i-1], s);
      forall r: nat
        ensures PresentSince(tr, acts, r, k, i) ==> r in tr[i].readers
        ensures r in tr[i].readers ==> (tr[i].readers[r].period < at <==> PresentSince(tr, acts, r, k, i))
      {
        PresentStill(tr, acts, r, k, i - 1);
        if PresentSince(tr, acts, r, k, i) {
          ReaderKeeps(tr[i-1], acts[i-1], r);
        }
        if r in tr[i].readers {
          ReadersStep(tr[i-1], acts[i-1], r);
        }
      }
    }
  }

  lemma FateStep(st: State, a: Action, s: Ref)
    requires Inv(st) && Enabled(st, a) && s in st.slots && !st.slots[s].fate.Alive?
    ensures s in Apply(st, a).slots && st.period <= Apply(st, a).period
    ensures Apply(st, a).slots[s].fate == st.slots[s].fate || Apply(st, a).slots[s].fate.Freed?
  {
    if st.slots[s].fate.Retired? {
      RetiredStays(st, a, s);
    } else {
      FreedStays(st, a, s);
    }
  }

  lemma FreedStays(st: State, a: Action, s: Ref)
    requires Inv(st) && Enabled(st, a) && s in st.slots && st.slots[s].fate.Freed?
    ensures s in Apply(st, a).slots && st.period <= Apply(st, a).period && Apply(st, a).slots[s].fate.Freed?
  {
    hide GracePeriodOver, Conserved, ReadersSafe;
    if !ChangesSlots(a) {
      OthersKeepSlots(st, a);
      hide Owned, AfterReplace;
    }
  }

  /** In every run: a slot that was retired and not destroyed yet can be destroyed exactly when every reader that was
      inside when it was retired has left. */
  lemma DestroyedAfterGrace(tr: seq<State>, acts: seq<Action>, k: nat, i: nat, s: Ref)
    requires Run(tr, acts) && k < i < |tr| && RetiredBy(tr, acts, k, s)
    ensures s in tr[i].slots
    ensures tr[i].slots[s].fate.Retired? ==>
      (Ready(tr[i], Destroy(s)) <==> forall r: nat :: !PresentSince(tr, acts, r, k, i))
  {
    StaysSorted(tr, acts, k, i, s);
    hide PresentSince;
  }
}
