/** When a lookup finds a key, when it misses one, and which key a kill hits. */
module KeyLookups {
  import opened Words
  import opened KeySlots
  import opened KeySlotTheorems

  // A lookup beside any changes

  /** The read-side section of `r` that step `e` began is still open in state `i`. */
  ghost predicate Section(tr: seq<State>, acts: seq<Action>, r: nat, e: nat, i: nat) {
    && Run(tr, acts) && e < i < |tr|
    && acts[e].Enter? && acts[e].r == r
    && forall k :: e < k < i ==> acts[k] != Leave(r)
  }

  ghost predicate Sole(st: State, keyId: byte, p: Option<Ref>, s: Ref) {
    Wanted(st, ById(keyId), p) ==> p == Some(s)
  }

  /** Slot `s` is installed, if only set aside by a swap, has the key ID, and no pointer names another that has it. */
  ghost predicate Alone(st: State, keyId: byte, s: Ref) {
    && (st.primary == Some(s) || st.secondary == Some(s) || st.updater == SwapMid(Some(s)))
    && s in st.slots && st.slots[s].keyId == keyId
    && Sole(st, keyId, st.primary, s) && Sole(st, keyId, st.secondary, s)
  }

  /** Reader `r` loads a pointer, and it names `s`. */
  ghost predicate Loads(st: State, a: Action, r: nat, s: Ref) {
    || (a == LoadPrimary(r) && st.primary == Some(s))
    || (a == LoadSecondary(r) && st.secondary == Some(s))
  }

  /** One of the loads of the section found `s` in the pointer. */
  ghost predicate Saw(tr: seq<State>, acts: seq<Action>, r: nat, e: nat, i: nat, s: Ref)
    requires |tr| == |acts| + 1 && i < |tr|
  {
    exists k :: e < k < i && Loads(tr[k], acts[k], r, s)
  }

  ghost predicate Carried(st: State, keyId: byte, p: Option<Ref>, s: Ref, saw: bool) {
    && (saw <==> p == Some(s))
    && (p.Some? ==> p.value in st.slots)
    && Sole(st, keyId, p, s)
  }

  /** What a reader has in hand agrees with whether it saw `s`. */
  ghost predicate Tracks(st: State, reader: Reader, keyId: byte, s: Ref, saw: bool) {
    reader.want == ById(keyId)
    && match reader.pc
       case Entered => !saw
       case LoadedPrimary(p) => Carried(st, keyId, p, s, saw)
       case MissedPrimary => !saw
       case LoadedSecondary(p) => Carried(st, keyId, p, s, saw)
       case Found(t) => t == s && saw
       case Done(result) => result == if saw then Some(s) else None
  }

  lemma TracksLast(st: State, st': State, reader: Reader, keyId: byte, s: Ref, saw: bool)
    requires Tracks(st, reader, keyId, s, saw) && SameView(st, st')
    ensures Tracks(st', reader, keyId, s, saw)
  {
  }

  lemma OwnStepTracks(st: State, a: Action, keyId: byte, s: Ref, saw: bool)
    requires Inv(st) && Enabled(st, a) && Alone(st, keyId, s)
    requires a.LoadPrimary? || a.CheckPrimary? || a.LoadSecondary? || a.CheckSecondary? || a.TryHold?
    requires Tracks(st, st.readers[a.r], keyId, s, saw)
    ensures Tracks(Apply(st, a), Apply(st, a).readers[a.r], keyId, s, saw || Loads(st, a, a.r, s))
  {
    NamedAreAlive(st);
    assert st.updater == SwapMid(Some(s)) ==> UpdaterOwns(st.updater, s) > 0;
    if a.TryHold? {
      assert st.slots[s].refs > 0;
    }
  }

  lemma StepTracks(st: State, a: Action, r: nat, keyId: byte, s: Ref, saw: bool)
    requires Inv(st) && Enabled(st, a) && Alone(st, keyId, s) && a != Leave(r)
    requires r in st.readers && Tracks(st, st.readers[r], keyId, s, saw)
    ensures r in Apply(st, a).readers
    ensures Tracks(Apply(st, a), Apply(st, a).readers[r], keyId, s, saw || Loads(st, a, r, s))
  {
    hide Inv, Tracks, SameView, Alone;
    if (a.LoadPrimary? || a.CheckPrimary? || a.LoadSecondary? || a.CheckSecondary? || a.TryHold?) && a.r == r {
      OwnStepTracks(st, a, keyId, s, saw);
    } else {
      OthersLeaveReader(st, a, r);
      StepView(st, a);
      TracksLast(st, Apply(st, a), st.readers[r], keyId, s, saw);
    }
  }

  lemma OthersLeaveReader(st: State, a: Action, r: nat)
    requires Enabled(st, a) && r in st.readers && a != Leave(r)
    requires !((a.LoadPrimary? || a.CheckPrimary? || a.LoadSecondary? || a.CheckSecondary? || a.TryHold?) && a.r == r)
    ensures r in Apply(st, a).readers && Apply(st, a).readers[r] == st.readers[r]
  {
    hide GracePeriodOver, Wanted, Owned, AfterReplace;
  }

  lemma SawAfter(tr: seq<State>, acts: seq<Action>, r: nat, e: nat, i: nat, s: Ref)
    requires |tr| == |acts| + 1 && e < i < |acts|
    ensures Saw(tr, acts, r, e, i + 1, s) <==> Saw(tr, acts, r, e, i, s) || Loads(tr[i], acts[i], r, s)
  {
  }

  lemma {:induction false} SectionTracks(tr: seq<State>, acts: seq<Action>, r: nat, e: nat, i: nat, keyId: byte, s: Ref)
    requires Section(tr, acts, r, e, i) && acts[e].want == ById(keyId)
    requires forall k :: e < k <= i ==> Alone(tr[k], keyId, s)
    ensures r in tr[i].readers && Tracks(tr[i], tr[i].readers[r], keyId, s, Saw(tr, acts, r, e, i, s))
  {
    assert StepAt(tr, acts, i - 1);
    if i == e + 1 {
      assert Apply(tr[e], acts[e]).readers[r].pc == Entered;
    } else {
      hide Inv, Enabled, Apply, Tracks, Alone, Loads;
      SectionTracks(tr, acts, r, e, i - 1, keyId, s);
      RunKeepsInv(tr, acts, i - 1);
      StepTracks(tr[i-1], acts[i-1], r, keyId, s, Saw(tr, acts, r, e, i - 1, s));
      SawAfter(tr, acts, r, e, i - 1, s);
    }
  }

  /** In every run: a lookup of a key that is installed all the while, alone under its ID, finds it if and only if
      the primary named it when the lookup loaded the primary, or the secondary when it loaded the secondary.
      Otherwise it returns nothing. A swap beside the lookup, or around it, can keep it from either. */
  lemma FoundExactlyIfLoaded(tr: seq<State>, acts: seq<Action>, r: nat, e: nat, i: nat, keyId: byte, s: Ref)
    requires Section(tr, acts, r, e, i) && acts[e].want == ById(keyId)
    requires forall k :: e < k <= i ==> Alone(tr[k], keyId, s)
    requires r in tr[i].readers && tr[i].readers[r].pc.Done?
    ensures tr[i].readers[r].pc.result == if Saw(tr, acts, r, e, i, s) then Some(s) else None
  {
    SectionTracks(tr, acts, r, e, i, keyId, s);
  }

  // The two places hold different slots

  /** Outside a swap the pointers never name one slot; in the middle of one the slot set aside is not named, and a slot
      being installed is not named yet. */
  ghost predicate Apart(st: State) {
    match st.updater
    case SwapMid(p) => p.Some? ==> p != st.secondary && p != st.primary
    case Installing(_, s) =>
      st.primary != Some(s) && st.secondary != Some(s) && (st.primary.Some? ==> st.primary != st.secondary)
    case _ => st.primary.Some? ==> st.primary != st.secondary
  }

  lemma StepKeepsApart(st: State, a: Action)
    requires Inv(st) && Apart(st) && Enabled(st, a)
    ensures Apart(Apply(st, a))
  {
    hide Inv, Enabled, Apply;
    if IsUpdate(a) {
      UpdateKeepsApart(st, a);
    } else {
      OthersKeepPlaces(st, a);
    }
  }

  ghost predicate IsUpdate(a: Action) {
    a.NewKey? || a.Install? || a.DropOld? || a.Delete? || a.SwapFirst? || a.SwapSecond? || a.Kill?
  }

  lemma OthersKeepPlaces(st: State, a: Action)
    requires Enabled(st, a) && !IsUpdate(a)
    ensures Apply(st, a).primary == st.primary && Apply(st, a).secondary == st.secondary
    ensures Apply(st, a).updater == st.updater
  {
    hide GracePeriodOver, Wanted;
  }

  lemma UpdateKeepsApart(st: State, a: Action)
    requires Inv(st) && Apart(st) && Enabled(st, a) && IsUpdate(a)
    ensures Apart(Apply(st, a))
  {
    NamedAreAlive(st);
    hide FatesFit, ReadersSafe, GracePeriodOver, Wanted, Owned, RefsOf, Owners;
  }

  lemma {:induction false} RunKeepsApart(tr: seq<State>, acts: seq<Action>, i: nat)
    requires Run(tr, acts) && i < |tr|
    ensures Apart(tr[i])
  {
    if i > 0 {
      hide Inv, Enabled, Apply, Apart;
      RunKeepsApart(tr, acts, i - 1);
      RunKeepsInv(tr, acts, i - 1);
      assert StepAt(tr, acts, i - 1);
      StepKeepsApart(tr[i-1], acts[i-1]);
    }
  }

  /** Without a store of a swap, a slot that stays installed stays in its place. */
  lemma StaysInPlace(st: State, a: Action, keyId: byte, s: Ref)
    requires Apart(st) && Enabled(st, a) && !st.updater.SwapMid? && !a.SwapFirst?
    requires Alone(st, keyId, s) && Alone(Apply(st, a), keyId, s)
    ensures !Apply(st, a).updater.SwapMid?
    ensures Apply(st, a).primary == Some(s) <==> st.primary == Some(s)
    ensures Apply(st, a).secondary == Some(s) <==> st.secondary == Some(s)
  {
    hide Sole, GracePeriodOver, Wanted, Owned;
  }

  /** How far a lookup can be without having seen `s` in its place. */
  ghost predicate WillSee(st: State, reader: Reader, s: Ref, saw: bool) {
    || saw || reader.pc.Entered?
    || (st.primary != Some(s) && st.secondary == Some(s) && (reader.pc.LoadedPrimary? || reader.pc.MissedPrimary?))
  }

  lemma StepWillSee(st: State, a: Action, r: nat, keyId: byte, s: Ref, saw: bool)
    requires Enabled(st, a) && Apart(st) && !st.updater.SwapMid? && !a.SwapFirst? && a != Leave(r)
    requires Alone(st, keyId, s) && Alone(Apply(st, a), keyId, s)
    requires r in st.readers && r in Apply(st, a).readers
    requires Tracks(st, st.readers[r], keyId, s, saw) && WillSee(st, st.readers[r], s, saw)
    ensures WillSee(Apply(st, a), Apply(st, a).readers[r], s, saw || Loads(st, a, r, s))
  {
    StaysInPlace(st, a, keyId, s);
    if (a.LoadPrimary? || a.CheckPrimary? || a.LoadSecondary? || a.CheckSecondary? || a.TryHold?) && a.r == r {
      hide GracePeriodOver, Owned, AfterReplace;
    } else {
      OthersLeaveReader(st, a, r);
      hide Enabled, Apply, Tracks;
    }
  }

  /** No swap is half-done when the section begins, and none stores during it. */
  ghost predicate NoSwapBeside(tr: seq<State>, acts: seq<Action>, e: nat, i: nat)
    requires |tr| == |acts| + 1 && e < i < |tr|
  {
    !tr[e].updater.SwapMid? && forall k :: e < k < i ==> !acts[k].SwapFirst? && !acts[k].SwapSecond?
  }

  lemma {:induction false} SectionWillSee(tr: seq<State>, acts: seq<Action>, r: nat, e: nat, i: nat, keyId: byte, s: Ref)
    requires Section(tr, acts, r, e, i) && acts[e].want == ById(keyId) && NoSwapBeside(tr, acts, e, i)
    requires forall k :: e < k <= i ==> Alone(tr[k], keyId, s)
    ensures r in tr[i].readers && !tr[i].updater.SwapMid?
    ensures WillSee(tr[i], tr[i].readers[r], s, Saw(tr, acts, r, e, i, s))
  {
    assert StepAt(tr, acts, i - 1);
    if i == e + 1 {
      assert Apply(tr[e], acts[e]).readers[r].pc == Entered && Apply(tr[e], acts[e]).updater == tr[e].updater;
    } else {
      hide Inv, Enabled, Apply, Tracks, Alone, Loads, WillSee, Apart;
      SectionWillSee(tr, acts, r, e, i - 1, keyId, s);
      SectionTracks(tr, acts, r, e, i - 1, keyId, s);
      SectionTracks(tr, acts, r, e, i, keyId, s);
      RunKeepsApart(tr, acts, i - 1);
      StaysInPlace(tr[i-1], acts[i-1], keyId, s);
      StepWillSee(tr[i-1], acts[i-1], r, keyId, s, Saw(tr, acts, r, e, i - 1, s));
      SawAfter(tr, acts, r, e, i - 1, s);
    }
  }

  /** What a caller can see to: in every run, a lookup of a key that is installed all the while, alone under its ID,
      finds it if no swap is half-done when it begins and none stores while it runs. */
  lemma FoundWithoutSwap(tr: seq<State>, acts: seq<Action>, r: nat, e: nat, i: nat, keyId: byte, s: Ref)
    requires Section(tr, acts, r, e, i) && acts[e].want == ById(keyId) && NoSwapBeside(tr, acts, e, i)
    requires forall k :: e < k <= i ==> Alone(tr[k], keyId, s)
    requires r in tr[i].readers && tr[i].readers[r].pc.Done?
    ensures tr[i].readers[r].pc.result == Some(s)
  {
    hide Alone;
    SectionWillSee(tr, acts, r, e, i, keyId, s);
    FoundExactlyIfLoaded(tr, acts, r, e, i, keyId, s);
  }

  /** Between the two stores of a swap the old primary key is invisible, unless the old secondary has its ID. */
  lemma SwapHidesOldPrimary(tr: seq<State>, acts: seq<Action>, i: nat)
    requires Run(tr, acts) && i < |tr| && tr[i].updater.SwapMid? && tr[i].updater.oldPrimary.Some?
    ensures var st, p := tr[i], tr[i].updater.oldPrimary.value;
      && p in st.slots
      && (Visible(st, ById(st.slots[p].keyId)) == None
          <==> !(st.secondary.Some? && st.secondary.value in st.slots
                 && st.slots[st.secondary.value].keyId == st.slots[p].keyId))
  {
    RunKeepsInv(tr, acts, i);
    NamedAreAlive(tr[i]);
    assert UpdaterOwns(tr[i].updater, tr[i].updater.oldPrimary.value) > 0;
  }

  // Runs in which a lookup misses an installed key

  lemma {:induction false} PlaysThree(st: State, a: Action, b: Action, c: Action, acts: seq<Action>, last: State)
    requires Enabled(st, a) && Enabled(Apply(st, a), b) && Enabled(Apply(Apply(st, a), b), c)
    requires Plays(Apply(Apply(Apply(st, a), b), c), acts, last)
    ensures Plays(st, [a] + ([b] + ([c] + acts)), last)
  {
    hide Enabled, Apply, Plays;
    PlaysFirst(Apply(Apply(st, a), b), c, acts, last);
    PlaysFirst(Apply(st, a), b, [c] + acts, last);
    PlaysFirst(st, a, [b] + ([c] + acts), last);
  }

  /** The first half of a lookup by key ID that does not want the primary. */
  lemma LookupPassesPrimary(st: State, r: nat, want: Want) returns (st': State)
    requires Inv(st) && r !in st.readers && want.ById? && !Wanted(st, want, st.primary)
    ensures st' == st.(readers := st.readers[r := Reader(want, st.period, st.stores, MissedPrimary)])
    ensures forall acts, last :: Plays(st', acts, last) ==>
      Plays(st, [Enter(r, want)] + ([LoadPrimary(r)] + ([CheckPrimary(r)] + acts)), last)
  {
    NamedAreAlive(st);
    hide Inv, Plays;
    var st2 := Apply(Apply(st, Enter(r, want)), LoadPrimary(r));
    assert Enabled(st2, CheckPrimary(r));
    st' := Apply(st2, CheckPrimary(r));
    forall acts, last | Plays(st', acts, last)
      ensures Plays(st, [Enter(r, want)] + ([LoadPrimary(r)] + ([CheckPrimary(r)] + acts)), last)
    {
      hide Enabled, Apply;
      PlaysThree(st, Enter(r, want), LoadPrimary(r), CheckPrimary(r), acts, last);
    }
    assert st'.readers == st.readers[r := Reader(want, st.period, st.stores, MissedPrimary)];
  }

  /** Its second half, when it does not want the secondary either. */
  lemma LookupMissesSecondary(st: State, r: nat) returns (last: State)
    requires Inv(st) && r in st.readers && st.readers[r].pc == MissedPrimary
    requires !Wanted(st, st.readers[r].want, st.secondary)
    ensures last == st.(readers := st.readers[r := st.readers[r].(pc := Done(None))])
    ensures Plays(st, [LoadSecondary(r)] + ([CheckSecondary(r)] + []), last)
  {
    NamedAreAlive(st);
    var st1 := Apply(st, LoadSecondary(r));
    assert Enabled(st1, CheckSecondary(r));
    last := Apply(st1, CheckSecondary(r));
    PlaysNone(last);
    PlaysFirst(st1, CheckSecondary(r), [], last);
    PlaysFirst(st, LoadSecondary(r), [CheckSecondary(r)] + [], last);
    assert last.readers == st.readers[r := st.readers[r].(pc := Done(None))];
  }

  /** A swap that overtakes a lookup of the secondary key between its two loads makes it miss, in every
      state with two key IDs, although the key is visible before and after. */
  lemma OvertakenLookupMisses(st: State, r: nat, p: Ref, q: Ref)
    returns (acts: seq<Action>, last: State)
    requires Inv(st) && st.updater.Idle? && r !in st.readers
    requires st.primary == Some(p) && st.secondary == Some(q) && p in st.slots && q in st.slots
    requires st.slots[p].keyId != st.slots[q].keyId
    ensures acts == [Enter(r, ById(st.slots[q].keyId))] + ([LoadPrimary(r)] + ([CheckPrimary(r)] +
                    ([SwapFirst] + ([SwapSecond] + ([LoadSecondary(r)] + ([CheckSecondary(r)] + []))))))
    ensures Plays(st, acts, last)
    ensures r in last.readers && last.readers[r].pc == Done(None)
    ensures Visible(st, last.readers[r].want) == Visible(last, last.readers[r].want) == Some(q)
  {
    hide Inv, Plays;
    var want := ById(st.slots[q].keyId);
    var st3 := LookupPassesPrimary(st, r, want);
    RunOnePcStep(st, st3, r);
    var st4 := Apply(st3, SwapFirst);
    SwapOrKillStep(st3, SwapFirst);
    var st5 := Apply(st4, SwapSecond);
    SwapOrKillStep(st4, SwapSecond);
    last := LookupMissesSecondary(st5, r);
    PlaysFirst(st4, SwapSecond, [LoadSecondary(r)] + ([CheckSecondary(r)] + []), last);
    PlaysFirst(st3, SwapFirst, [SwapSecond] + ([LoadSecondary(r)] + ([CheckSecondary(r)] + [])), last);
    acts := [Enter(r, want)] + ([LoadPrimary(r)] + ([CheckPrimary(r)] +
            ([SwapFirst] + ([SwapSecond] + ([LoadSecondary(r)] + ([CheckSecondary(r)] + []))))));
  }

  lemma RunOnePcStep(st: State, st': State, r: nat)
    requires Inv(st) && r in st'.readers && Carries(st'.readers[r].pc).None? && st'.readers[r].period == st.period
    requires st' == st.(readers := st.readers[r := st'.readers[r]])
    ensures Inv(st')
  {
    assert forall s: Ref :: RefsOf(st', s) == RefsOf(st, s) && Owners(st', s) == Owners(st, s);
    assert forall q :: q in st.readers ==> ReaderSafe(st, st.readers[q]);
  }

  /** A lookup of the primary key that runs between the two stores of a swap makes no load beside a store and still
      misses, unless the secondary has the same ID; the key is visible before the swap and after it. */
  lemma LookupInsideSwapMisses(st: State, r: nat, p: Ref)
    returns (acts: seq<Action>, last: State)
    requires Inv(st) && st.updater.Idle? && r !in st.readers && st.primary == Some(p) && p in st.slots
    requires !Wanted(st, ById(st.slots[p].keyId), st.secondary)
    ensures acts == [SwapFirst] + ([Enter(r, ById(st.slots[p].keyId))] + ([LoadPrimary(r)] + ([CheckPrimary(r)] +
                    ([LoadSecondary(r)] + ([CheckSecondary(r)] + [])))))
    ensures Plays(st, acts, last)
    ensures r in last.readers && last.readers[r].pc == Done(None) && last.readers[r].since == last.stores
    ensures Visible(st, last.readers[r].want) == Some(p)
    ensures Enabled(last, SwapSecond) && Visible(Apply(last, SwapSecond), last.readers[r].want) == Some(p)
  {
    hide Inv, Plays;
    var want := ById(st.slots[p].keyId);
    var st1 := Apply(st, SwapFirst);
    SwapOrKillStep(st, SwapFirst);
    var st4 := LookupPassesPrimary(st1, r, want);
    RunOnePcStep(st1, st4, r);
    last := LookupMissesSecondary(st4, r);
    var rest := [Enter(r, want)] + ([LoadPrimary(r)] + ([CheckPrimary(r)] +
                ([LoadSecondary(r)] + ([CheckSecondary(r)] + []))));
    PlaysFirst(st, SwapFirst, rest, last);
    acts := [SwapFirst] + rest;
  }

  // Which key a kill hits

  lemma {:induction false} ViewLasts(tr: seq<State>, acts: seq<Action>, i: nat, j: nat)
    requires Run(tr, acts) && i <= j < |tr|
    ensures SameView(tr[i], tr[j])
    decreases j
  {
    hide Enabled, Apply;
    if i < j {
      ViewLasts(tr, acts, i, j - 1);
      assert StepAt(tr, acts, j - 1);
      StepView(tr[j-1], acts[j-1]);
    }
  }

  /** A kill drops the key that a lookup of the primary returned exactly when the primary still names it, and it does
      if no pointer was stored since the lookup began. */
  lemma KillDropsKeyInUse(tr: seq<State>, acts: seq<Action>, i: nat, j: nat, r: nat, s: Ref)
    requires Run(tr, acts) && i <= j < |tr| && r in tr[i].readers
    requires tr[i].readers[r].want.ThePrimary? && tr[i].readers[r].pc == Done(Some(s))
    requires tr[j].updater.Idle?
    ensures Apply(tr[j], Kill).updater == Dropping(s) <==> tr[j].primary == Some(s)
    ensures tr[j].stores == tr[i].readers[r].since ==> tr[j].primary == Some(s)
  {
    RunKeepsHonesty(tr, acts, i);
    assert Honest(tr[i], tr[i].readers[r]);
    LookupIsRight(tr, acts, i, r);
    ViewLasts(tr, acts, i, j);
  }

  /** A lookup of the primary, up to where it has found it. */
  lemma LookupReachesPrimary(st: State, r: nat, p: Ref) returns (st': State)
    requires Inv(st) && r !in st.readers && st.primary == Some(p)
    ensures p in st.slots && st.slots[p].refs > 0 && Inv(st')
    ensures st' == st.(readers := st.readers[r := Reader(ThePrimary, st.period, st.stores, Found(p))])
    ensures forall acts, last :: Plays(st', acts, last) ==>
      Plays(st, [Enter(r, ThePrimary)] + ([LoadPrimary(r)] + ([CheckPrimary(r)] + acts)), last)
  {
    NamedAreAlive(st);
    assert st.slots[p].refs > 0;
    hide Inv, Plays;
    var st1 := Apply(st, Enter(r, ThePrimary));
    EnterStep(st, r, ThePrimary);
    var st2 := Apply(st1, LoadPrimary(r));
    LoadStep(st1, LoadPrimary(r));
    assert Enabled(st2, CheckPrimary(r));
    st' := Apply(st2, CheckPrimary(r));
    CheckStep(st2, CheckPrimary(r));
    forall acts, last | Plays(st', acts, last)
      ensures Plays(st, [Enter(r, ThePrimary)] + ([LoadPrimary(r)] + ([CheckPrimary(r)] + acts)), last)
    {
      hide Enabled, Apply;
      PlaysThree(st, Enter(r, ThePrimary), LoadPrimary(r), CheckPrimary(r), acts, last);
    }
    assert st'.readers == st.readers[r := Reader(ThePrimary, st.period, st.stores, Found(p))];
  }

  lemma SwapThenKill(st: State) returns (last: State)
    requires st.updater.Idle?
    ensures Plays(st, [SwapFirst] + ([SwapSecond] + ([Kill] + [])), last)
    ensures last == st.(primary := None, secondary := st.primary, stores := st.stores + 3,
                        updater := if st.secondary.Some? then Dropping(st.secondary.value) else Faulted)
  {
    hide Plays;
    last := Apply(Swapped(st), Kill);
    PlaysNone(last);
    PlaysThree(st, SwapFirst, SwapSecond, Kill, [], last);
  }

  /** The kill is meant for the key in use, but looks for it again: after a swap it drops the other key, or faults
      if there is none, and the key that ran out stays installed. */
  lemma KillHitsAnotherKey(st: State, r: nat, p: Ref) returns (acts: seq<Action>, last: State)
    requires Inv(st) && Apart(st) && st.updater.Idle? && r !in st.readers && st.primary == Some(p)
    ensures acts == [Enter(r, ThePrimary)] + ([LoadPrimary(r)] + ([CheckPrimary(r)] + ([TryHold(r)] +
                    ([SwapFirst] + ([SwapSecond] + ([Kill] + []))))))
    ensures Plays(st, acts, last)
    ensures r in last.readers && last.readers[r].pc == Done(Some(p)) && p in last.holds
    ensures last.secondary == Some(p)
    ensures last.updater == if st.secondary.Some? then Dropping(st.secondary.value) else Faulted
    ensures last.updater != Dropping(p)
  {
    hide Inv, Plays;
    var st3 := LookupReachesPrimary(st, r, p);
    assert Enabled(st3, TryHold(r));
    var st4 := Apply(st3, TryHold(r));
    last := SwapThenKill(st4);
    PlaysFirst(st3, TryHold(r), [SwapFirst] + ([SwapSecond] + ([Kill] + [])), last);
    acts := [Enter(r, ThePrimary)] + ([LoadPrimary(r)] + ([CheckPrimary(r)] + ([TryHold(r)] +
            ([SwapFirst] + ([SwapSecond] + ([Kill] + []))))));
  }

  /** Killing the primary puts a reference without looking at it: it faults exactly when there is no primary,
      and a delete that comes first takes it there. */
  lemma KillFaultsWithoutPrimary(st: State)
    requires Inv(st) && st.updater.Idle?
    ensures Apply(st, Kill).updater.Faulted? <==> st.primary.None?
    ensures Apply(Apply(st, Delete(Primary)), Kill).updater.Faulted?
  {
  }
}
