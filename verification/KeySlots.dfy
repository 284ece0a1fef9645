/** Primary and secondary key of a peer: changed under a mutex, read under RCU, counted by references.
    Every pointer load, pointer store and reference change is a step of its own. */
module KeySlots {
  import opened Words

  /** Address of an allocated key slot. */
  type Ref = nat

  /** `Retired(at)`: the count fell to zero and destruction was handed to `call_rcu` in period `at`. */
  datatype Fate = Alive | Retired(at: nat) | Freed

  datatype Slot = Slot(keyId: byte, refs: nat, fate: Fate)

  datatype Which = Primary | Secondary | NoSuchSlot

  /** A lookup: by key ID when decrypting, of the primary when encrypting. */
  datatype Want = ById(keyId: byte) | ThePrimary

  datatype ReaderPc =
    | Entered
    | LoadedPrimary(p: Option<Ref>)
    | MissedPrimary
    | LoadedSecondary(p: Option<Ref>)
    | Found(s: Ref)
    | Done(result: Option<Ref>)

  /** A read-side section, the RCU period it began in and the pointer stores it began after. */
  datatype Reader = Reader(want: Want, period: nat, since: nat, pc: ReaderPc)

  /** The holder of the mutex, if any. */
  datatype Updater =
    | Idle
    | Installing(which: Which, s: Ref)
    | Dropping(s: Ref)
    | SwapMid(oldPrimary: Option<Ref>)
    | Faulted

  datatype State = State(
    primary: Option<Ref>,
    secondary: Option<Ref>,
    slots: map<Ref, Slot>,
    readers: map<nat, Reader>,
    holds: multiset<Ref>,
    updater: Updater,
    period: nat,
    stores: nat)

  const INIT := State(None, None, map[], map[], multiset{}, Idle, 0, 0)

  datatype Action =
    | Enter(r: nat, want: Want)
    | LoadPrimary(r: nat)
    | CheckPrimary(r: nat)
    | LoadSecondary(r: nat)
    | CheckSecondary(r: nat)
    | TryHold(r: nat)
    | Leave(r: nat)
    | Put(s: Ref)
    | NewKey(which: Which, keyId: byte, s: Ref)
    | Install
    | DropOld
    | Delete(which: Which)
    | SwapFirst
    | SwapSecond
    | Kill
    | Destroy(s: Ref)

  /** Some thread is at this point of its code. */
  ghost predicate Ready(st: State, a: Action) {
    match a
    case Enter(r, _) => r !in st.readers
    case LoadPrimary(r) => r in st.readers && st.readers[r].pc.Entered?
    case CheckPrimary(r) => r in st.readers && st.readers[r].pc.LoadedPrimary?
    case LoadSecondary(r) => r in st.readers && st.readers[r].pc.MissedPrimary?
    case CheckSecondary(r) => r in st.readers && st.readers[r].pc.LoadedSecondary?
    case TryHold(r) => r in st.readers && st.readers[r].pc.Found?
    case Leave(r) => r in st.readers && st.readers[r].pc.Done?
    case Put(s) => s in st.holds
    case NewKey(_, _, s) => st.updater.Idle? && s !in st.slots
    case Install => st.updater.Installing?
    case DropOld => st.updater.Dropping?
    case Delete(_) => st.updater.Idle?
    case SwapFirst => st.updater.Idle?
    case SwapSecond => st.updater.SwapMid?
    case Kill => st.updater.Idle?
    case Destroy(s) => s in st.slots && st.slots[s].fate.Retired? && GracePeriodOver(st, st.slots[s].fate.at)
  }

  /** The slots whose memory the step reads or writes. */
  ghost function Touches(st: State, a: Action): set<Ref>
    requires Ready(st, a)
  {
    match a
    case CheckPrimary(r) => var p := st.readers[r].pc.p; if p.Some? then {p.value} else {}
    case CheckSecondary(r) => var p := st.readers[r].pc.p; if p.Some? then {p.value} else {}
    case TryHold(r) => {st.readers[r].pc.s}
    case Put(s) => {s}
    case DropOld => {st.updater.s}
    case Destroy(s) => {s}
    case _ => {}
  }

  /** The step finds the memory it touches, and puts no reference that is not there. */
  ghost predicate Enabled(st: State, a: Action) {
    && Ready(st, a)
    && Touches(st, a) <= st.slots.Keys
    && (a.Put? ==> st.slots[a.s].refs > 0)
    && (a.DropOld? ==> st.slots[st.updater.s].refs > 0)
  }

  /** Every reader present when the callback was queued has left. */
  ghost predicate GracePeriodOver(st: State, at: nat) {
    forall r :: r in st.readers ==> st.readers[r].period >= at
  }

  ghost function SetPc(st: State, r: nat, pc: ReaderPc): State
    requires r in st.readers
  {
    st.(readers := st.readers[r := st.readers[r].(pc := pc)])
  }

  /** `ks && ks->key_id == key_id`; the primary lookup takes any slot. */
  ghost predicate Wanted(st: State, want: Want, p: Option<Ref>) {
    p.Some? && p.value in st.slots && (want.ById? ==> st.slots[p.value].keyId == want.keyId)
  }

  /** `kref_put`: the last reference hands the slot to `call_rcu`. */
  ghost function PutRef(st: State, s: Ref): State
    requires s in st.slots && st.slots[s].refs > 0
  {
    var slot := st.slots[s];
    if slot.refs > 1 then st.(slots := st.slots[s := slot.(refs := slot.refs - 1)])
    else st.(slots := st.slots[s := slot.(refs := 0, fate := Retired(st.period + 1))], period := st.period + 1)
  }

  ghost function Owned(p: Option<Ref>): multiset<Ref> {
    if p.Some? then multiset{p.value} else multiset{}
  }

  ghost function Apply(st: State, a: Action): State
    requires Enabled(st, a)
  {
    match a
    case Enter(r, want) => st.(readers := st.readers[r := Reader(want, st.period, st.stores, Entered)])
    case LoadPrimary(r) => SetPc(st, r, LoadedPrimary(st.primary))
    case CheckPrimary(r) =>
      var p, want := st.readers[r].pc.p, st.readers[r].want;
      if Wanted(st, want, p) then SetPc(st, r, Found(p.value))
      else SetPc(st, r, if want.ById? then MissedPrimary else Done(None))
    case LoadSecondary(r) => SetPc(st, r, LoadedSecondary(st.secondary))
    case CheckSecondary(r) =>
      var p := st.readers[r].pc.p;
      SetPc(st, r, if Wanted(st, st.readers[r].want, p) then Found(p.value) else Done(None))
    case TryHold(r) =>
      var s := st.readers[r].pc.s;
      var slot := st.slots[s];
      if slot.refs == 0 then SetPc(st, r, Done(None))
      else
        SetPc(st, r, Done(Some(s))).(slots := st.slots[s := slot.(refs := slot.refs + 1)],
                                     holds := st.holds[s := st.holds[s] + 1])
    case Leave(r) => st.(readers := st.readers - {r})
    case Put(s) => PutRef(st, s).(holds := st.holds[s := st.holds[s] - 1])
    case NewKey(which, keyId, s) =>
      st.(slots := st.slots[s := Slot(keyId, 1, Alive)], updater := Installing(which, s))
    case Install =>
      var s := st.updater.s;
      (match st.updater.which
       case Primary => st.(primary := Some(s), stores := st.stores + 1, updater := AfterReplace(st.primary))
       case Secondary => st.(secondary := Some(s), stores := st.stores + 1, updater := AfterReplace(st.secondary))
       case NoSuchSlot => st.(updater := Dropping(s)))
    case DropOld => PutRef(st, st.updater.s).(updater := Idle)
    case Delete(which) =>
      (match which
       case Primary => st.(primary := None, stores := st.stores + 1, holds := st.holds + Owned(st.primary))
       case Secondary => st.(secondary := None, stores := st.stores + 1, holds := st.holds + Owned(st.secondary))
       case NoSuchSlot => st)
    case SwapFirst => st.(primary := st.secondary, stores := st.stores + 1, updater := SwapMid(st.primary))
    case SwapSecond => st.(secondary := st.updater.oldPrimary, stores := st.stores + 1, updater := Idle)
    case Kill =>
      st.(primary := None, stores := st.stores + 1,
          updater := if st.primary.Some? then Dropping(st.primary.value) else Faulted)
    case Destroy(s) => st.(slots := st.slots[s := st.slots[s].(fate := Freed)])
  }

  ghost function AfterReplace(replaced: Option<Ref>): Updater {
    if replaced.Some? then Dropping(replaced.value) else Idle
  }

  /** A run from the initial state: `tr[i]` becomes `tr[i+1]` by `acts[i]`. */
  ghost predicate Run(tr: seq<State>, acts: seq<Action>) {
    && |tr| == |acts| + 1 && tr[0] == INIT
    && forall i :: 0 <= i < |acts| ==> StepAt(tr, acts, i)
  }

  ghost predicate StepAt(tr: seq<State>, acts: seq<Action>, i: nat)
    requires |tr| == |acts| + 1 && i < |acts|
  {
    Enabled(tr[i], acts[i]) && tr[i+1] == Apply(tr[i], acts[i])
  }

  // What every step keeps

  ghost function RefsOf(st: State, s: Ref): nat {
    if s in st.slots then st.slots[s].refs else 0
  }

  ghost function Names(p: Option<Ref>, s: Ref): nat {
    if p == Some(s) then 1 else 0
  }

  ghost function UpdaterOwns(u: Updater, s: Ref): nat {
    match u
    case Installing(_, t) => if s == t then 1 else 0
    case Dropping(t) => if s == t then 1 else 0
    case SwapMid(p) => Names(p, s)
    case _ => 0
  }

  /** How many owners a slot has. Half-way through a swap the primary pointer is a second copy of the
      secondary one and owns nothing; the updater owns what the primary used to name. */
  ghost function Owners(st: State, s: Ref): nat {
    Names(st.secondary, s) + (if st.updater.SwapMid? then 0 else Names(st.primary, s))
    + st.holds[s] + UpdaterOwns(st.updater, s)
  }

  ghost predicate Conserved(st: State) {
    && (forall s: Ref :: RefsOf(st, s) == Owners(st, s))
    && (st.updater.SwapMid? ==> st.primary == st.secondary)
  }

  ghost predicate FatesFit(st: State) {
    forall s :: s in st.slots ==>
      && (st.slots[s].refs > 0 <==> st.slots[s].fate.Alive?)
      && (st.slots[s].fate.Retired? ==> st.slots[s].fate.at <= st.period)
  }

  /** The slot a reader is about to touch. */
  ghost function Carries(pc: ReaderPc): Option<Ref> {
    match pc
    case LoadedPrimary(p) => p
    case LoadedSecondary(p) => p
    case Found(s) => Some(s)
    case _ => None
  }

  /** A slot a reader of period `period` may still touch. */
  ghost predicate Shielded(st: State, period: nat, s: Ref) {
    s in st.slots && (st.slots[s].fate.Alive? || (st.slots[s].fate.Retired? && period < st.slots[s].fate.at))
  }

  ghost predicate ReaderSafe(st: State, reader: Reader) {
    && reader.period <= st.period
    && (Carries(reader.pc).Some? ==> Shielded(st, reader.period, Carries(reader.pc).value))
  }

  ghost predicate ReadersSafe(st: State) {
    forall r :: r in st.readers ==> ReaderSafe(st, st.readers[r])
  }

  ghost predicate Inv(st: State) {
    Conserved(st) && FatesFit(st) && ReadersSafe(st)
  }

  lemma ConservedInit()
    ensures Inv(INIT)
  {
  }

  /** Moving a reader along is safe when the slot it picks up is. */
  lemma PcStep(st: State, r: nat, pc: ReaderPc)
    requires Inv(st) && r in st.readers
    requires Carries(pc).Some? ==> Shielded(st, st.readers[r].period, Carries(pc).value)
    ensures Inv(SetPc(st, r, pc))
  {
    var st' := SetPc(st, r, pc);
    assert forall s: Ref :: RefsOf(st', s) == RefsOf(st, s) && Owners(st', s) == Owners(st, s);
    assert forall q :: q in st'.readers ==> ReaderSafe(st, st.readers[q]);
  }

  lemma EnterStep(st: State, r: nat, want: Want)
    requires Inv(st) && Enabled(st, Enter(r, want))
    ensures Inv(Apply(st, Enter(r, want)))
  {
    var st' := Apply(st, Enter(r, want));
    assert forall s: Ref :: RefsOf(st', s) == RefsOf(st, s) && Owners(st', s) == Owners(st, s);
    assert forall q :: q in st.readers ==> ReaderSafe(st, st.readers[q]);
  }

  lemma LeaveStep(st: State, r: nat)
    requires Inv(st) && Enabled(st, Leave(r))
    ensures Inv(Apply(st, Leave(r)))
  {
    var st' := Apply(st, Leave(r));
    assert forall s: Ref :: RefsOf(st', s) == RefsOf(st, s) && Owners(st', s) == Owners(st, s);
    assert forall q :: q in st.readers ==> ReaderSafe(st, st.readers[q]);
  }

  lemma LoadStep(st: State, a: Action)
    requires Inv(st) && Enabled(st, a) && (a.LoadPrimary? || a.LoadSecondary?)
    ensures Inv(Apply(st, a))
  {
    NamedAreAlive(st);
    PcStep(st, a.r, if a.LoadPrimary? then LoadedPrimary(st.primary) else LoadedSecondary(st.secondary));
  }

  lemma CheckStep(st: State, a: Action)
    requires Inv(st) && Enabled(st, a) && (a.CheckPrimary? || a.CheckSecondary?)
    ensures Inv(Apply(st, a))
  {
    assert ReaderSafe(st, st.readers[a.r]);
    PcStep(st, a.r, Apply(st, a).readers[a.r].pc);
  }

  lemma NamedAreAlive(st: State)
    requires Inv(st)
    ensures st.primary.Some? ==> st.primary.value in st.slots && st.slots[st.primary.value].fate.Alive?
    ensures st.secondary.Some? ==> st.secondary.value in st.slots && st.slots[st.secondary.value].fate.Alive?
    ensures forall s :: s in st.holds ==> s in st.slots && st.slots[s].fate.Alive?
    ensures forall s :: UpdaterOwns(st.updater, s) > 0 ==> s in st.slots && st.slots[s].fate.Alive?
  {
    assert forall s: Ref :: Owners(st, s) > 0 ==> RefsOf(st, s) > 0;
    if st.primary.Some? {
      assert Owners(st, st.primary.value) > 0;
    }
    if st.secondary.Some? {
      assert Owners(st, st.secondary.value) > 0;
    }
    assert forall s :: s in st.holds ==> Owners(st, s) > 0;
    assert forall s :: UpdaterOwns(st.updater, s) > 0 ==> Owners(st, s) > 0;
  }

  lemma TryHoldStep(st: State, r: nat)
    requires Inv(st) && Enabled(st, TryHold(r))
    ensures Inv(Apply(st, TryHold(r)))
  {
    var st' := Apply(st, TryHold(r));
    forall s: Ref ensures RefsOf(st', s) == Owners(st', s) {
      assert RefsOf(st, s) == Owners(st, s);
    }
    assert forall q :: q in st'.readers ==> ReaderSafe(st, st.readers[q]);
  }

  lemma PutStep(st: State, s: Ref)
    requires Inv(st) && Enabled(st, Put(s))
    ensures Inv(Apply(st, Put(s)))
  {
    var st' := Apply(st, Put(s));
    forall t: Ref ensures RefsOf(st', t) == Owners(st', t) {
      assert RefsOf(st, t) == Owners(st, t);
    }
    assert forall q :: q in st'.readers ==> ReaderSafe(st, st.readers[q]);
  }

  /** Stores that pass references on without changing how many each slot has. */
  lemma OwnersMoved(st: State, st': State)
    requires Inv(st)
    requires st'.slots == st.slots && st'.readers == st.readers && st'.period == st.period
    requires forall s: Ref :: Owners(st', s) == Owners(st, s)
    requires st'.updater.SwapMid? ==> st'.primary == st'.secondary
    ensures Inv(st')
  {
    assert forall s: Ref :: RefsOf(st', s) == RefsOf(st, s);
    assert forall q :: q in st'.readers ==> ReaderSafe(st, st.readers[q]);
  }

  lemma InstallStep(st: State)
    requires Inv(st) && Enabled(st, Install)
    ensures Inv(Apply(st, Install))
  {
    var st' := Apply(st, Install);
    forall s: Ref ensures Owners(st', s) == Owners(st, s) {
      hide ReadersSafe, FatesFit, Conserved;
    }
    OwnersMoved(st, st');
  }

  lemma DeleteStep(st: State, which: Which)
    requires Inv(st) && Enabled(st, Delete(which))
    ensures Inv(Apply(st, Delete(which)))
  {
    var st' := Apply(st, Delete(which));
    forall s: Ref ensures Owners(st', s) == Owners(st, s) {
      hide ReadersSafe, FatesFit, Conserved;
    }
    OwnersMoved(st, st');
  }

  lemma SwapOrKillStep(st: State, a: Action)
    requires Inv(st) && Enabled(st, a) && (a.SwapFirst? || a.SwapSecond? || a.Kill?)
    ensures Inv(Apply(st, a))
  {
    var st' := Apply(st, a);
    forall s: Ref ensures Owners(st', s) == Owners(st, s) {
      hide ReadersSafe, FatesFit;
    }
    OwnersMoved(st, st');
  }

  lemma NewKeyStep(st: State, which: Which, keyId: byte, s: Ref)
    requires Inv(st) && Enabled(st, NewKey(which, keyId, s))
    ensures Inv(Apply(st, NewKey(which, keyId, s)))
  {
    var st' := Apply(st, NewKey(which, keyId, s));
    forall t: Ref ensures RefsOf(st', t) == Owners(st', t) {
      assert RefsOf(st, t) == Owners(st, t);
    }
    assert forall q :: q in st'.readers ==> ReaderSafe(st, st.readers[q]);
  }

  lemma DropStep(st: State)
    requires Inv(st) && Enabled(st, DropOld)
    ensures Inv(Apply(st, DropOld))
  {
    var st' := Apply(st, DropOld);
    forall t: Ref ensures RefsOf(st', t) == Owners(st', t) {
      assert RefsOf(st, t) == Owners(st, t);
    }
    assert forall q :: q in st'.readers ==> ReaderSafe(st, st.readers[q]);
  }

  lemma DestroyStep(st: State, s: Ref)
    requires Inv(st) && Enabled(st, Destroy(s))
    ensures Inv(Apply(st, Destroy(s)))
  {
    var st' := Apply(st, Destroy(s));
    forall t: Ref ensures RefsOf(st', t) == Owners(st', t) {
      assert RefsOf(st, t) == Owners(st, t);
    }
    assert forall q :: q in st'.readers ==> ReaderSafe(st, st.readers[q]);
  }

  lemma StepKeepsInv(st: State, a: Action)
    requires Inv(st) && Enabled(st, a)
    ensures Inv(Apply(st, a))
  {
    hide Inv, Enabled, Apply;
    match a
    case Enter(r, want) => EnterStep(st, r, want);
    case Leave(r) => LeaveStep(st, r);
    case TryHold(r) => TryHoldStep(st, r);
    case Put(s) => PutStep(st, s);
    case NewKey(which, keyId, s) => NewKeyStep(st, which, keyId, s);
    case Install => InstallStep(st);
    case Delete(which) => DeleteStep(st, which);
    case DropOld => DropStep(st);
    case Destroy(s) => DestroyStep(st, s);
    case _ =>
      if a.SwapFirst? || a.SwapSecond? || a.Kill? {
        SwapOrKillStep(st, a);
      } else if a.LoadPrimary? || a.LoadSecondary? {
        LoadStep(st, a);
      } else {
        CheckStep(st, a);
      }
  }

  lemma {:induction false} RunKeepsInv(tr: seq<State>, acts: seq<Action>, i: nat)
    requires Run(tr, acts) && i < |tr|
    ensures Inv(tr[i])
  {
    hide Inv, Enabled, Apply;
    if i == 0 {
      ConservedInit();
    } else {
      RunKeepsInv(tr, acts, i - 1);
      assert StepAt(tr, acts, i - 1);
      StepKeepsInv(tr[i-1], acts[i-1]);
    }
  }
}
