/** What the key-slot protocol promises in every interleaving. */
module KeySlotTheorems {
  import opened Words
  import opened KeySlots

  /** Whatever thread moves next finds the slot it touches, and that slot is not destroyed. */
  lemma NoUseAfterFree(tr: seq<State>, acts: seq<Action>, i: nat, a: Action)
    requires Run(tr, acts) && i < |tr| && Ready(tr[i], a)
    ensures Enabled(tr[i], a)
    ensures forall s :: s in Touches(tr[i], a) ==> !tr[i].slots[s].fate.Freed?
  {
    var st := tr[i];
    RunKeepsInv(tr, acts, i);
    NamedAreAlive(st);
    if a.CheckPrimary? || a.CheckSecondary? || a.TryHold? {
      assert ReaderSafe(st, st.readers[a.r]);
    }
    if a.DropOld? {
      assert UpdaterOwns(st.updater, st.updater.s) > 0;
    }
  }

  /** With the mutex free a count is the pointers naming the slot plus the references handed out;
      at all times a slot named by a pointer is alive. */
  lemma CountsMatchOwners(tr: seq<State>, acts: seq<Action>, i: nat, s: Ref)
    requires Run(tr, acts) && i < |tr|
    ensures tr[i].updater.Idle? ==>
      RefsOf(tr[i], s) == Names(tr[i].primary, s) + Names(tr[i].secondary, s) + tr[i].holds[s]
    ensures tr[i].primary == Some(s) || tr[i].secondary == Some(s) ==> RefsOf(tr[i], s) >= 1
  {
    RunKeepsInv(tr, acts, i);
    assert RefsOf(tr[i], s) == Owners(tr[i], s);
  }

  ghost predicate Dead(st: State, s: Ref) {
    s in st.slots && st.slots[s].refs == 0
  }

  ghost predicate ChangesSlots(a: Action) {
    a.TryHold? || a.Put? || a.DropOld? || a.NewKey? || a.Destroy?
  }

  lemma OthersKeepSlots(st: State, a: Action)
    requires Enabled(st, a) && !ChangesSlots(a)
    ensures Apply(st, a).slots == st.slots
  {
    hide GracePeriodOver, Wanted, Owned, AfterReplace;
  }

  /** What is left of a slot after a step: its key ID always, its death for good. */
  ghost predicate Outlives(slot: Slot, slot': Slot) {
    && slot'.keyId == slot.keyId
    && (slot.refs == 0 ==> slot'.refs == 0)
    && (slot.refs == 0 && slot.fate.Freed? ==> slot'.fate.Freed?)
  }

  lemma SlotStep(st: State, a: Action, s: Ref)
    requires Enabled(st, a) && s in st.slots
    ensures s in Apply(st, a).slots && Outlives(st.slots[s], Apply(st, a).slots[s])
  {
    hide GracePeriodOver;
    if !ChangesSlots(a) {
      hide Apply, Enabled;
      OthersKeepSlots(st, a);
    }
  }

  /** A slot whose count reached zero stays so: no pointer names it and nobody is handed it again. */
  lemma {:induction false} ZeroIsFinal(tr: seq<State>, acts: seq<Action>, i: nat, j: nat, s: Ref)
    requires Run(tr, acts) && i <= j < |tr| && Dead(tr[i], s)
    ensures Dead(tr[j], s)
    ensures tr[j].primary != Some(s) && tr[j].secondary != Some(s) && s !in tr[j].holds
    ensures tr[i].slots[s].fate.Freed? ==> tr[j].slots[s].fate.Freed?
    decreases j
  {
    hide Enabled, Apply, FatesFit, ReadersSafe;
    if i < j {
      ZeroIsFinal(tr, acts, i, j - 1, s);
      RunKeepsInv(tr, acts, j - 1);
      assert StepAt(tr, acts, j - 1);
      SlotStep(tr[j-1], acts[j-1], s);
    }
    RunKeepsInv(tr, acts, j);
    assert RefsOf(tr[j], s) == Owners(tr[j], s);
  }

  /** No slot is destroyed twice. */
  lemma DestroyedOnce(tr: seq<State>, acts: seq<Action>, i: nat, j: nat, s: Ref)
    requires Run(tr, acts) && i < j < |acts| && acts[i] == Destroy(s)
    ensures acts[j] != Destroy(s)
  {
    RunKeepsInv(tr, acts, i);
    assert StepAt(tr, acts, i) && StepAt(tr, acts, j);
    assert Dead(tr[i+1], s) && tr[i+1].slots[s].fate.Freed?;
    ZeroIsFinal(tr, acts, i + 1, j, s);
  }

  // Which slot a lookup returns

  /** The slot a lookup finds when nothing moves meanwhile. */
  ghost function Visible(st: State, want: Want): Option<Ref> {
    if want.ThePrimary? then st.primary
    else if Wanted(st, want, st.primary) then st.primary
    else if Wanted(st, want, st.secondary) then st.secondary
    else None
  }

  ghost predicate HasKey(st: State, want: Want, s: Ref) {
    s in st.slots && (want.ById? ==> st.slots[s].keyId == want.keyId)
  }

  /** No pointer was stored since the lookup began, so what it has read is still true. */
  ghost predicate UpToDate(st: State, reader: Reader) {
    match reader.pc
    case Entered => true
    case LoadedPrimary(p) => p == st.primary
    case MissedPrimary => reader.want.ById? && !Wanted(st, reader.want, st.primary)
    case LoadedSecondary(p) => p == st.secondary && reader.want.ById? && !Wanted(st, reader.want, st.primary)
    case Found(s) => Visible(st, reader.want) == Some(s)
    case Done(result) => Visible(st, reader.want) == result
  }

  ghost predicate Honest(st: State, reader: Reader) {
    && reader.since <= st.stores
    && (reader.pc.Found? ==> HasKey(st, reader.want, reader.pc.s))
    && (reader.pc.Done? && reader.pc.result.Some? ==> HasKey(st, reader.want, reader.pc.result.value))
    && (reader.since == st.stores ==> UpToDate(st, reader))
  }

  ghost predicate AllHonest(st: State) {
    forall r :: r in st.readers ==> Honest(st, st.readers[r])
  }

  /** Slots keep their key IDs, and the pointers moved only if a store was counted. */
  ghost predicate SameView(st: State, st': State) {
    && (forall s :: s in st.slots ==> s in st'.slots && st'.slots[s].keyId == st.slots[s].keyId)
    && st.stores <= st'.stores
    && (st.stores == st'.stores ==> st'.primary == st.primary && st'.secondary == st.secondary)
  }

  lemma StepView(st: State, a: Action)
    requires Enabled(st, a)
    ensures SameView(st, Apply(st, a))
  {
    PointersStep(st, a);
    hide Enabled, Apply;
    forall s | s in st.slots ensures s in Apply(st, a).slots && Apply(st, a).slots[s].keyId == st.slots[s].keyId {
      SlotStep(st, a, s);
    }
  }

  lemma PointersStep(st: State, a: Action)
    requires Enabled(st, a)
    ensures var st' := Apply(st, a);
      && st.stores <= st'.stores
      && (st.stores == st'.stores ==> st'.primary == st.primary && st'.secondary == st.secondary)
  {
    hide GracePeriodOver, Wanted, Owned, AfterReplace;
  }

  lemma HonestyLasts(st: State, st': State, reader: Reader)
    requires Inv(st) && Honest(st, reader) && SameView(st, st')
    ensures Honest(st', reader)
  {
    NamedAreAlive(st);
  }

  lemma ReaderMoves(st: State, a: Action)
    requires Inv(st) && AllHonest(st) && Enabled(st, a)
    requires a.LoadPrimary? || a.CheckPrimary? || a.LoadSecondary? || a.CheckSecondary?
    ensures Honest(Apply(st, a), Apply(st, a).readers[a.r])
  {
    assert Honest(st, st.readers[a.r]);
    assert ReaderSafe(st, st.readers[a.r]);
  }

  lemma HoldMoves(st: State, r: nat)
    requires Inv(st) && AllHonest(st) && Enabled(st, TryHold(r))
    ensures Honest(Apply(st, TryHold(r)), Apply(st, TryHold(r)).readers[r])
  {
    var s := st.readers[r].pc.s;
    assert Honest(st, st.readers[r]);
    NamedAreAlive(st);
  }

  lemma StepKeepsHonesty(st: State, a: Action)
    requires Inv(st) && AllHonest(st) && Enabled(st, a)
    ensures AllHonest(Apply(st, a))
  {
    hide Inv, Honest, SameView;
    var st' := Apply(st, a);
    StepView(st, a);
    forall r | r in st'.readers ensures Honest(st', st'.readers[r]) {
      if r in st.readers && st'.readers[r] == st.readers[r] {
        HonestyLasts(st, st', st.readers[r]);
      } else if a.Enter? {
        NewcomerIsHonest(st, a.want);
      } else if a.TryHold? {
        HoldMoves(st, r);
      } else {
        ReaderMoves(st, a);
      }
    }
  }

  lemma NewcomerIsHonest(st: State, want: Want)
    ensures forall rs :: Honest(st.(readers := rs), Reader(want, st.period, st.stores, Entered))
  {
  }

  lemma {:induction false} RunKeepsHonesty(tr: seq<State>, acts: seq<Action>, i: nat)
    requires Run(tr, acts) && i < |tr|
    ensures AllHonest(tr[i])
  {
    hide Inv, Enabled, Apply, Honest;
    if i > 0 {
      RunKeepsHonesty(tr, acts, i - 1);
      RunKeepsInv(tr, acts, i - 1);
      assert StepAt(tr, acts, i - 1);
      StepKeepsHonesty(tr[i-1], acts[i-1]);
    }
  }

  /** A finished lookup returns nothing or a slot with the key ID asked for, even in the middle of a swap;
      if no pointer was stored while it ran, it returns exactly the visible slot. */
  lemma LookupIsRight(tr: seq<State>, acts: seq<Action>, i: nat, r: nat)
    requires Run(tr, acts) && i < |tr| && r in tr[i].readers && tr[i].readers[r].pc.Done?
    ensures var reader := tr[i].readers[r];
      && (reader.pc.result.Some? ==> HasKey(tr[i], reader.want, reader.pc.result.value))
      && (reader.since == tr[i].stores ==> reader.pc.result == Visible(tr[i], reader.want))
  {
    RunKeepsHonesty(tr, acts, i);
    assert Honest(tr[i], tr[i].readers[r]);
  }

  // Rekeying

  ghost function Swapped(st: State): State
    requires st.updater.Idle?
  {
    Apply(Apply(st, SwapFirst), SwapSecond)
  }

  /** Two different slots are installed under one key ID. */
  ghost predicate SharedKeyId(st: State) {
    && st.primary.Some? && st.secondary.Some? && st.primary != st.secondary
    && st.primary.value in st.slots && st.secondary.value in st.slots
    && st.slots[st.primary.value].keyId == st.slots[st.secondary.value].keyId
  }

  /** A whole swap changes the encryption key to the old secondary; it leaves every lookup by key ID
      as it was exactly when the two slots do not share a key ID. */
  lemma SwapKeepsLookups(st: State)
    requires Inv(st) && st.updater.Idle?
    ensures Visible(Swapped(st), ThePrimary) == st.secondary
    ensures Swapped(st).primary == st.secondary && Swapped(st).secondary == st.primary
    ensures (forall k: byte :: Visible(Swapped(st), ById(k)) == Visible(st, ById(k)))
       <==> !SharedKeyId(st)
  {
    NamedAreAlive(st);
    if SharedKeyId(st) {
      var k := st.slots[st.primary.value].keyId;
      assert Visible(st, ById(k)) == st.primary && Visible(Swapped(st), ById(k)) == st.secondary;
    }
  }

  ghost function At(st: State, which: Which): Option<Ref> {
    match which
    case Primary => st.primary
    case Secondary => st.secondary
    case NoSuchSlot => None
  }

  /** A new key is made and stored, and what it replaced is put; without a place to store it, it is put itself. */
  ghost function InstallActions(st: State, which: Which, newId: byte, b: Ref): seq<Action> {
    [NewKey(which, newId, b)] + StoreActions(st, which)
  }

  /** Key `newId` is in its place, and all else is as it was but for the reference its place had to another slot. */
  ghost predicate InstalledAt(st: State, st': State, which: Which, newId: byte, b: Ref) {
    && st'.updater.Idle? && st'.holds == st.holds && st'.readers == st.readers
    && st'.primary == (if which.Primary? then Some(b) else st.primary)
    && st'.secondary == (if which.Secondary? then Some(b) else st.secondary)
    && b in st'.slots && st'.slots[b].keyId == newId
    && RefsOf(st', b) == (if which.NoSuchSlot? then 0 else 1)
    && (forall s :: s in st.slots ==> s in st'.slots && st'.slots[s].keyId == st.slots[s].keyId
                                      && RefsOf(st', s) == RefsOf(st, s) - Names(At(st, which), s))
  }

  /** Slots keep their IDs, and `given` loses a reference. */
  ghost predicate GaveUp(st: State, st': State, given: Option<Ref>) {
    && (forall s :: s in st.slots ==> s in st'.slots && st'.slots[s].keyId == st.slots[s].keyId)
    && (forall s :: s in st.slots ==> RefsOf(st', s) == RefsOf(st, s) - Names(given, s))
  }

  /** What the store and the put after it do, once key `b` is made. */
  ghost predicate StoredAt(st: State, st': State, which: Which, b: Ref) {
    && st'.updater.Idle? && st'.holds == st.holds && st'.readers == st.readers
    && st'.primary == (if which.Primary? then Some(b) else st.primary)
    && st'.secondary == (if which.Secondary? then Some(b) else st.secondary)
    && GaveUp(st, st', if which.NoSuchSlot? then Some(b) else At(st, which))
  }

  ghost function StoreActions(st: State, which: Which): seq<Action> {
    [Install] + (if which.NoSuchSlot? || At(st, which).Some? then [DropOld] + [] else [])
  }

  lemma DropGivesUp(st: State)
    requires Enabled(st, DropOld)
    ensures var st' := Apply(st, DropOld);
      && st' == st.(slots := st'.slots, period := st'.period, updater := Idle)
      && GaveUp(st, st', Some(st.updater.s))
  {
  }

  lemma StoreCanBePlayed(st: State, b: Ref, which: Which) returns (installed: State)
    requires Inv(st) && st.updater == Installing(which, b)
    ensures Inv(installed) && StoredAt(st, installed, which, b)
    ensures Plays(st, StoreActions(st, which), installed)
  {
    var st2 := Apply(st, Install);
    InstallStep(st);
    assert st2.slots == st.slots && st2.holds == st.holds && st2.readers == st.readers;
    hide Inv, Plays, RefsOf;
    if which.NoSuchSlot? || At(st, which).Some? {
      DropIsSafe(st2);
      installed := Apply(st2, DropOld);
      DropStep(st2);
      DropGivesUp(st2);
      hide Apply, Enabled;
      PlaysNone(installed);
      PlaysFirst(st2, DropOld, [], installed);
      PlaysFirst(st, Install, [DropOld] + [], installed);
      GaveUpSame(st, st2, installed, Some(st2.updater.s));
    } else {
      installed := st2;
      hide Apply, Enabled;
      PlaysNone(installed);
      PlaysFirst(st, Install, [], installed);
      GaveUpNothing(st, st2);
    }
  }

  lemma GaveUpSame(st: State, st2: State, st': State, given: Option<Ref>)
    requires st2.slots == st.slots && GaveUp(st2, st', given)
    ensures GaveUp(st, st', given)
  {
    assert forall s :: RefsOf(st2, s) == RefsOf(st, s);
  }

  lemma GaveUpNothing(st: State, st': State)
    requires st'.slots == st.slots
    ensures GaveUp(st, st', None)
  {
  }

  lemma KeyIsMade(st: State, which: Which, newId: byte, b: Ref)
    requires Inv(st) && st.updater.Idle? && b !in st.slots
    ensures var st1 := Apply(st, NewKey(which, newId, b));
      && Inv(st1) && st1 == st.(slots := st1.slots, updater := Installing(which, b))
      && b in st1.slots && st1.slots[b].keyId == newId && RefsOf(st1, b) == 1
      && GaveUp(st, st1, None) && st.primary != Some(b) && st.secondary != Some(b)
  {
    NamedAreAlive(st);
    NewKeyStep(st, which, newId, b);
    hide Inv;
  }

  lemma MadeAndStored(st: State, st1: State, st': State, which: Which, newId: byte, b: Ref)
    requires st1 == st.(slots := st1.slots, updater := Installing(which, b)) && b !in st.slots
    requires b in st1.slots && st1.slots[b].keyId == newId && RefsOf(st1, b) == 1 && GaveUp(st, st1, None)
    requires st.primary != Some(b) && st.secondary != Some(b)
    requires StoredAt(st1, st', which, b)
    ensures InstalledAt(st, st', which, newId, b)
  {
    forall s | s in st.slots
      ensures s in st'.slots && st'.slots[s].keyId == st.slots[s].keyId
      ensures RefsOf(st', s) == RefsOf(st, s) - Names(At(st, which), s)
    {
      hide RefsOf;
      assert s in st1.slots && s != b;
    }
  }

  /** From every state with the mutex free a key can be installed, in either place or in none. */
  lemma InstallAnywhere(st: State, which: Which, newId: byte, b: Ref) returns (installed: State)
    requires Inv(st) && st.updater.Idle? && b !in st.slots
    ensures Plays(st, InstallActions(st, which, newId, b), installed)
    ensures Inv(installed) && InstalledAt(st, installed, which, newId, b)
  {
    KeyIsMade(st, which, newId, b);
    hide Inv, Plays, Apply, StoredAt, InstalledAt, GaveUp, RefsOf;
    var st1 := Apply(st, NewKey(which, newId, b));
    installed := StoreCanBePlayed(st1, b, which);
    PlaysFirst(st, NewKey(which, newId, b), StoreActions(st1, which), installed);
    MadeAndStored(st, st1, installed, which, newId, b);
  }

  /** The slot at `p`, if it is the one wanted. */
  ghost function OrNone(st: State, want: Want, p: Option<Ref>): Option<Ref> {
    if Wanted(st, want, p) then p else None
  }

  /** Installing a primary: it is the key to encrypt with and the one found under its ID; the secondary stays, and is
      still found under its own ID unless that is the same. */
  lemma InstallPrimary(st: State, newId: byte, b: Ref) returns (installed: State)
    requires Inv(st) && st.updater.Idle? && b !in st.slots
    ensures Plays(st, InstallActions(st, Primary, newId, b), installed)
    ensures Inv(installed) && installed.updater.Idle?
    ensures Visible(installed, ThePrimary) == Visible(installed, ById(newId)) == Some(b)
    ensures installed.secondary == st.secondary
    ensures forall k: byte :: k != newId ==> Visible(installed, ById(k)) == OrNone(st, ById(k), st.secondary)
    ensures st.primary.Some? ==> RefsOf(installed, st.primary.value) == RefsOf(st, st.primary.value) - 1
    ensures RefsOf(installed, b) == 1
  {
    installed := InstallAnywhere(st, Primary, newId, b);
    NamedAreAlive(st);
    hide Inv, Plays;
  }

  /** Installing a secondary: it is found under its ID unless the primary has that, and the primary stays. */
  lemma InstallSecondary(st: State, newId: byte, b: Ref) returns (installed: State)
    requires Inv(st) && st.updater.Idle? && b !in st.slots
    ensures Plays(st, InstallActions(st, Secondary, newId, b), installed)
    ensures Inv(installed) && installed.updater.Idle?
    ensures installed.primary == st.primary && installed.secondary == Some(b)
    ensures b in installed.slots && installed.slots[b].keyId == newId
    ensures Visible(installed, ThePrimary) == Visible(st, ThePrimary)
    ensures forall k: byte :: Visible(installed, ById(k)) ==
                              if Wanted(st, ById(k), st.primary) then st.primary else if k == newId then Some(b) else None
    ensures st.secondary.Some? ==> RefsOf(installed, st.secondary.value) == RefsOf(st, st.secondary.value) - 1
    ensures forall s :: s in st.slots ==> s in installed.slots && installed.slots[s].keyId == st.slots[s].keyId
  {
    installed := InstallAnywhere(st, Secondary, newId, b);
    NamedAreAlive(st);
    hide Inv, Plays;
  }

  /** A place that does not exist: nothing is installed, and the new key is given up. */
  lemma InstallNowhere(st: State, newId: byte, b: Ref) returns (installed: State)
    requires Inv(st) && st.updater.Idle? && b !in st.slots
    ensures Plays(st, InstallActions(st, NoSuchSlot, newId, b), installed)
    ensures forall want :: Visible(installed, want) == Visible(st, want)
    ensures installed.primary == st.primary && installed.secondary == st.secondary && RefsOf(installed, b) == 0
    ensures forall s :: s in st.slots ==> RefsOf(installed, s) == RefsOf(st, s)
  {
    installed := InstallAnywhere(st, NoSuchSlot, newId, b);
    NamedAreAlive(st);
    hide Inv, Plays;
  }

  /** A delete empties its place and no other; the deleter then has the reference the place had. */
  lemma DeleteEmptiesItsPlace(st: State, which: Which)
    requires Inv(st) && st.updater.Idle?
    ensures var st' := Apply(st, Delete(which));
      && st'.updater.Idle?
      && st'.primary == (if which.Primary? then None else st.primary)
      && st'.secondary == (if which.Secondary? then None else st.secondary)
      && (forall s :: RefsOf(st', s) == RefsOf(st, s) && st'.holds[s] == st.holds[s] + Names(At(st, which), s))
  {
  }

  /** A kill, where there is a primary, empties the primary place and no other and puts its reference. */
  lemma KillEmptiesPrimary(st: State, p: Ref)
    requires Inv(st) && st.updater.Idle? && st.primary == Some(p)
    ensures Enabled(Apply(st, Kill), DropOld)
    ensures var st' := Apply(Apply(st, Kill), DropOld);
      && st'.updater.Idle? && st'.primary == None && st'.secondary == st.secondary && st'.holds == st.holds
      && (forall s :: RefsOf(st', s) == RefsOf(st, s) - Names(Some(p), s))
  {
    NamedAreAlive(st);
  }

  lemma DropIsSafe(st: State)
    requires Inv(st) && st.updater.Dropping?
    ensures Enabled(st, DropOld)
  {
    NamedAreAlive(st);
    assert UpdaterOwns(st.updater, st.updater.s) > 0;
  }

  /** Installing a key as secondary, swapping, then deleting the secondary: the new key decrypts from its
      installation on and encrypts from the first store of the swap on; the old key decrypts until the delete,
      except between the two stores of the swap, where no lookup sees it. */
  lemma RekeyKeepsBothKeys(st: State, a: Ref, b: Ref, newId: byte)
    returns (installed: State, midway: State, swapped: State, deleted: State)
    requires Inv(st) && st.updater.Idle? && st.primary == Some(a)
    requires a in st.slots && b !in st.slots && st.slots[a].keyId != newId
    ensures Plays(st, InstallActions(st, Secondary, newId, b), installed)
    ensures installed.updater.Idle? && midway == Apply(installed, SwapFirst) && swapped == Swapped(installed)
    ensures deleted == Apply(swapped, Delete(Secondary))
    ensures var oldId := st.slots[a].keyId;
      && Visible(installed, ById(oldId)) == Visible(swapped, ById(oldId)) == Some(a)
      && Visible(midway, ById(oldId)) == Visible(deleted, ById(oldId)) == None
    ensures forall after :: after in {installed, midway, swapped, deleted} ==> Visible(after, ById(newId)) == Some(b)
    ensures Visible(installed, ThePrimary) == Some(a)
    ensures forall after :: after in {midway, swapped, deleted} ==> Visible(after, ThePrimary) == Some(b)
  {
    hide Inv, Plays;
    installed := InstallSecondary(st, newId, b);
    midway := Apply(installed, SwapFirst);
    swapped := Swapped(installed);
    deleted := Apply(swapped, Delete(Secondary));
  }

  /** From `st` the actions can be played one after the other and end in `last`. */
  ghost predicate Plays(st: State, acts: seq<Action>, last: State)
    decreases |acts|
  {
    if acts == [] then st == last
    else Enabled(st, acts[0]) && Plays(Apply(st, acts[0]), acts[1..], last)
  }

  lemma {:induction false} PlaysNone(st: State)
    ensures Plays(st, [], st)
  {
  }

  lemma {:induction false} PlaysFirst(st: State, a: Action, acts: seq<Action>, last: State)
    requires Enabled(st, a) && Plays(Apply(st, a), acts, last)
    ensures Plays(st, [a] + acts, last)
  {
    assert ([a] + acts)[1..] == acts;
  }
}
