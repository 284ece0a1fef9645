/** The keys a peer decrypts with: which one a packet names, what its window makes of it, and what that earns. */
module RxKeys {
  import opened Words
  import opened Proto
  import opened ReplaySpec
  import opened ReplayRuns
  import opened ReplayTheorems
  import opened Aead
  import opened Subsequences
  import KeySlots

  /** A packet from the socket: who it is, its bytes, when and on which local address it came in, whether the
      reverse-path check would find its sender to be this peer, and why it cannot be given to the cipher, if so. */
  datatype Skb = Skb(tag: nat, data: Bytes, now: ulong, local: nat, allowed: bool, fault: Option<Errno>)

  /** The receiving half of a key. */
  datatype RxKey = RxKey(keyId: byte, open: Open, tail: Bytes, timeout: nat, recv: Receiver)

  /** Every key ever installed, numbered by generation, and the generations now in the two places. A key that was
      replaced or deleted stays in `slots`: a packet whose lookup came first is still decrypted with it. Between
      the two stores of a swap `aside` holds what the primary was. */
  datatype Keys = Keys(
    slots: map<nat, RxKey>,
    primary: Option<nat>,
    secondary: Option<nat>,
    aside: Option<Option<nat>>,
    next: nat)

  const NO_KEYS := Keys(map[], None, None, None, 0)

  ghost predicate Sane(keys: Keys) {
    && (forall g :: g in keys.slots ==> g < keys.next)
    && (keys.primary.Some? ==> keys.primary.value in keys.slots)
    && (keys.secondary.Some? ==> keys.secondary.value in keys.slots)
    && (keys.aside.Some? && keys.aside.value.Some? ==> keys.aside.value.value in keys.slots)
  }

  predicate Names(keys: Keys, place: Option<nat>, keyId: byte) {
    place.Some? && place.value in keys.slots && keys.slots[place.value].keyId == keyId
  }

  /** What both loads of a lookup give with no store between them: the primary if it has the key ID, or else the
      secondary if it has. */
  function Lookup(keys: Keys, keyId: byte): (g: Option<nat>)
    ensures g.Some? ==> g.value in keys.slots && keys.slots[g.value].keyId == keyId
    ensures g.Some? ==> g == keys.primary || g == keys.secondary
    ensures g.None? ==> !Names(keys, keys.primary, keyId) && !Names(keys, keys.secondary, keyId)
  {
    if Names(keys, keys.primary, keyId) then keys.primary
    else if Names(keys, keys.secondary, keyId) then keys.secondary
    else None
  }

  // Key changes, and what they do to the keys that packets find

  function Installed(keys: Keys, which: KeySlots.Which, key: RxKey): Keys {
    var more := keys.(slots := keys.slots[keys.next := key.(recv := FRESH_RECEIVER)], next := keys.next + 1);
    match which
    case Primary => more.(primary := Some(keys.next))
    case Secondary => more.(secondary := Some(keys.next))
    case NoSuchSlot => keys
  }

  function Deleted(keys: Keys, which: KeySlots.Which): Keys {
    match which
    case Primary => keys.(primary := None)
    case Secondary => keys.(secondary := None)
    case NoSuchSlot => keys
  }

  function SwapBegun(keys: Keys): Keys {
    keys.(primary := keys.secondary, aside := Some(keys.primary))
  }

  function SwapEnded(keys: Keys): Keys
    requires keys.aside.Some?
  {
    keys.(secondary := keys.aside.value, aside := None)
  }

  /** The two places hold different keys under one ID. */
  ghost predicate SharedId(keys: Keys) {
    && keys.primary.Some? && keys.secondary.Some? && keys.primary != keys.secondary
    && keys.primary.value in keys.slots && keys.secondary.value in keys.slots
    && keys.slots[keys.primary.value].keyId == keys.slots[keys.secondary.value].keyId
  }

  /** A swap exchanges the places and changes no key. Every packet finds the key it found before if and only if the two
      do not share an ID; between the stores a packet finds the old secondary or nothing. */
  lemma SwapExchanges(keys: Keys)
    requires Sane(keys) && keys.aside.None?
    ensures var mid, after := SwapBegun(keys), SwapEnded(SwapBegun(keys));
      && after.primary == keys.secondary && after.secondary == keys.primary && after.aside.None?
      && mid.slots == after.slots == keys.slots && mid.next == after.next == keys.next
      && ((forall id: byte :: Lookup(after, id) == Lookup(keys, id)) <==> !SharedId(keys))
      && (forall id: byte :: Lookup(mid, id) == if Names(keys, keys.secondary, id) then keys.secondary else None)
  {
    var after := SwapEnded(SwapBegun(keys));
    if SharedId(keys) {
      var id := keys.slots[keys.primary.value].keyId;
      assert Lookup(keys, id) == keys.primary && Lookup(after, id) == keys.secondary;
    }
  }

  /** A key is installed in its place, as a new generation with a window that has seen nothing, and all other keys and
      the other place stay. As primary it is found under its ID, as secondary unless the primary has that ID. */
  lemma InstallTakesPlace(keys: Keys, which: KeySlots.Which, key: RxKey)
    requires Sane(keys)
    ensures var g, after := keys.next, Installed(keys, which, key);
      && after.primary == (if which.Primary? then Some(g) else keys.primary)
      && after.secondary == (if which.Secondary? then Some(g) else keys.secondary) && after.aside == keys.aside
      && (!which.NoSuchSlot? ==> g !in keys.slots && g in after.slots && after.slots[g].recv == FRESH_RECEIVER
                                 && after.slots[g].(recv := key.recv) == key)
      && (forall h :: h in keys.slots ==> h in after.slots && after.slots[h] == keys.slots[h])
      && (which.Primary? ==> Lookup(after, key.keyId) == Some(g))
      && (which.Secondary? ==>
            Lookup(after, key.keyId) == if Names(keys, keys.primary, key.keyId) then keys.primary else Some(g))
      && (forall id: byte :: id != key.keyId ==>
            (which.Primary? ==> Lookup(after, id) == if Names(keys, keys.secondary, id) then keys.secondary else None)
            && (which.Secondary? ==> Lookup(after, id) == if Names(keys, keys.primary, id) then keys.primary else None))
      && (which.NoSuchSlot? ==> after == keys)
  {
  }

  /** A delete empties its place and no other, and changes no key. */
  lemma DeleteEmptiesPlace(keys: Keys, which: KeySlots.Which)
    ensures var after := Deleted(keys, which);
      && after.primary == (if which.Primary? then None else keys.primary)
      && after.secondary == (if which.Secondary? then None else keys.secondary)
      && after.aside == keys.aside && after.slots == keys.slots && after.next == keys.next
      && (forall id: byte :: Lookup(after, id) ==
            if which.Primary? then (if Names(keys, keys.secondary, id) then keys.secondary else None)
            else if which.Secondary? then (if Names(keys, keys.primary, id) then keys.primary else None)
            else Lookup(keys, id))
  {
  }

  /** Keys may have come, but none that was there has changed. */
  ghost predicate Extends(keys: Keys, keys': Keys) {
    forall g :: g in keys.slots ==> g in keys'.slots && keys'.slots[g] == keys.slots[g]
  }

  lemma InstallExtends(keys: Keys, which: KeySlots.Which, key: RxKey)
    requires Sane(keys)
    ensures Sane(Installed(keys, which, key)) && Extends(keys, Installed(keys, which, key))
  {
  }

  lemma MovesExtend(keys: Keys, which: KeySlots.Which)
    requires Sane(keys)
    ensures Sane(Deleted(keys, which)) && Extends(keys, Deleted(keys, which))
    ensures Sane(SwapBegun(keys)) && Extends(keys, SwapBegun(keys))
    ensures keys.aside.Some? ==> Sane(SwapEnded(keys)) && Extends(keys, SwapEnded(keys))
  {
  }

  // One packet under one key

  predicate IsData(skb: Skb) {
    skb.data != [] && OpcodeFromSkb(skb.data) == OVPN_DATA_V2
  }

  /** A packet taken off the ring and the key its lookup gave. */
  datatype Flight = Flight(skb: Skb, gen: Option<nat>)

  /** The lookup gave a key with the ID the packet names, which may have been replaced since, or none. */
  ghost predicate Known(keys: Keys, f: Flight) {
    IsData(f.skb) && (f.gen.Some? ==> Names(keys, f.gen, KeyIdFromSkb(f.skb.data)))
  }

  /** What the worker has in hand: nothing, a packet whose key is not the primary, or one whose lookup is over. */
  datatype Hand = Free | Looking(skb: Skb) | Holding(f: Flight)

  function InHand(hand: Hand): seq<Skb> {
    match hand
    case Free => []
    case Looking(skb) => [skb]
    case Holding(f) => [f.skb]
  }

  ghost predicate HandKnown(keys: Keys, hand: Hand) {
    match hand
    case Free => true
    case Looking(skb) => IsData(skb)
    case Holding(f) => Known(keys, f)
  }

  /** The load of the primary; `held` tells whether the slot found could still be held. */
  function LoadPrimary(keys: Keys, skb: Skb, held: bool): Hand
    requires IsData(skb)
  {
    if Names(keys, keys.primary, KeyIdFromSkb(skb.data)) then Holding(Flight(skb, if held then keys.primary else None))
    else Looking(skb)
  }

  function LoadSecondary(keys: Keys, skb: Skb, held: bool): Hand
    requires IsData(skb)
  {
    Holding(Flight(skb, if held && Names(keys, keys.secondary, KeyIdFromSkb(skb.data)) then keys.secondary else None))
  }

  /** The two loads, with no store between them and every hold granted, are the lookup; a hold refused gives no key. */
  lemma LoadsAreLookup(keys: Keys, skb: Skb, held: bool)
    requires IsData(skb)
    ensures var first := LoadPrimary(keys, skb, held);
      var last := if first.Looking? then LoadSecondary(keys, skb, held) else first;
      last == Holding(Flight(skb, if held then Lookup(keys, KeyIdFromSkb(skb.data)) else None))
  {
  }

  ghost function PidOf(skb: Skb): u32 {
    if |skb.data| < OVERHEAD then 0 else PktidOf(skb.data)
  }

  /** The packet reaches the cipher and its tag is right under the key of generation `g`. */
  ghost predicate Authentic(keys: Keys, g: nat, skb: Skb) {
    && g in keys.slots && skb.fault.None?
    && Opened(keys.slots[g].open, keys.slots[g].tail, skb.data).Some?
  }

  ghost function Payload(keys: Keys, g: nat, skb: Skb): Bytes
    requires Authentic(keys, g, skb)
  {
    Opened(keys.slots[g].open, keys.slots[g].tail, skb.data).value
  }

  /** It is authentic, and the window of that key has not seen its ID and takes it. */
  ghost predicate Passes(keys: Keys, f: Flight) {
    && f.gen.Some? && Authentic(keys, f.gen.value, f.skb)
    && Judge(keys.slots[f.gen.value].recv, PidOf(f.skb), 0, f.skb.now) == Accepted
  }

  ghost function Outcome(keys: Keys, f: Flight): Result<Bytes>
    requires Known(keys, f)
  {
    if f.gen.None? then Err(EINVAL)
    else if |f.skb.data| >= OVERHEAD && f.skb.fault.Some? then Err(f.skb.fault.value)
    else
      var key := keys.slots[f.gen.value];
      Decapsulated(key.recv, key.open, key.tail, f.skb.data, f.skb.now)
  }

  ghost function KeysAfter(keys: Keys, f: Flight): Keys {
    if f.gen.None? || !Authentic(keys, f.gen.value, f.skb) then keys
    else
      var g := f.gen.value;
      var key := keys.slots[g];
      keys.(slots := keys.slots[g := key.(recv := Receive(key.recv, PidOf(f.skb), 0, f.skb.now, key.timeout))])
  }

  lemma OutcomeIsExact(keys: Keys, f: Flight)
    requires Known(keys, f)
    ensures Outcome(keys, f).Ok? <==> Passes(keys, f)
    ensures Passes(keys, f) ==> Outcome(keys, f).value == Payload(keys, f.gen.value, f.skb)
  {
    hide Judge;
  }

  /** The packet can pass under the key once: it names the key, has a real ID and opens. */
  ghost predicate Accepts(key: RxKey, data: Bytes) {
    && |data| >= OVERHEAD && OpcodeFromSkb(data) == OVPN_DATA_V2 && KeyIdFromSkb(data) == key.keyId
    && PktidOf(data) != 0 && Opened(key.open, key.tail, data).Some?
  }

  lemma PassingIsAccepted(keys: Keys, f: Flight)
    requires Passes(keys, f) && Known(keys, f)
    ensures Accepts(keys.slots[f.gen.value], f.skb.data)
  {
  }

  // Credit for packets that pass

  /** A packet that passed, and the generation of the key it passed under. */
  datatype Credit = Credit(gen: nat, skb: Skb)

  /** The packet is authentic and named its key, and the window of that key refuses its ID from now on. */
  ghost predicate Good(keys: Keys, c: Credit) {
    && Authentic(keys, c.gen, c.skb) && Accepts(keys.slots[c.gen], c.skb.data)
    && Remembers(keys.slots[c.gen].recv, Event(PidOf(c.skb), 0, 0))
  }

  /** No two credits are for one packet ID under one key. */
  ghost predicate Distinct(cs: seq<Credit>) {
    forall i, j :: 0 <= i < j < |cs| ==> cs[i].gen != cs[j].gen || PidOf(cs[i].skb) != PidOf(cs[j].skb)
  }

  ghost predicate Sound(keys: Keys, cs: seq<Credit>) {
    Distinct(cs) && forall c :: c in cs ==> Good(keys, c)
  }

  ghost function CreditsAfter(keys: Keys, f: Flight, cs: seq<Credit>): seq<Credit> {
    if Passes(keys, f) then cs + [Credit(f.gen.value, f.skb)] else cs
  }

  /** Key changes take no credit away. */
  lemma CreditsOutliveKeys(keys: Keys, keys': Keys, cs: seq<Credit>)
    requires Extends(keys, keys') && Sound(keys, cs)
    ensures Sound(keys', cs)
  {
    hide Opened, Remembers, Distinct;
  }

  /** A window never forgets what it has taken. */
  lemma GoodStaysGood(keys: Keys, f: Flight, c: Credit)
    requires Good(keys, c)
    ensures Good(KeysAfter(keys, f), c)
  {
    hide Opened;
    if f.gen == Some(c.gen) && Authentic(keys, c.gen, f.skb) {
      var key := keys.slots[c.gen];
      hide Remembers, Receive;
      MemoryLasts(key.recv, key.timeout, Event(PidOf(c.skb), 0, 0), Event(PidOf(f.skb), 0, f.skb.now));
    }
  }

  /** A packet that passes has not passed before under its key. */
  lemma PassingIsNew(keys: Keys, f: Flight, c: Credit)
    requires Passes(keys, f) && Good(keys, c)
    ensures c.gen != f.gen.value || PidOf(c.skb) != PidOf(f.skb)
  {
    hide Opened;
  }

  lemma AcceptsKeepsUp(keys: Keys, f: Flight)
    requires f.gen.Some? && f.gen.value in keys.slots && Accepts(keys.slots[f.gen.value], f.skb.data)
    ensures f.gen.value in KeysAfter(keys, f).slots && Accepts(KeysAfter(keys, f).slots[f.gen.value], f.skb.data)
  {
    hide Opened, Receive;
  }

  lemma WindowRemembers(keys: Keys, f: Flight)
    requires Passes(keys, f)
    ensures f.gen.value in KeysAfter(keys, f).slots
    ensures Remembers(KeysAfter(keys, f).slots[f.gen.value].recv, Event(PidOf(f.skb), 0, 0))
    ensures Authentic(KeysAfter(keys, f), f.gen.value, f.skb)
  {
    hide Opened, Receive, Judge, PidOf;
    var key, e := keys.slots[f.gen.value], Event(PidOf(f.skb), 0, f.skb.now);
    MemoryLasts(key.recv, key.timeout, e, e);
  }

  /** It will not pass again. */
  lemma PassingIsGood(keys: Keys, f: Flight)
    requires Passes(keys, f) && Known(keys, f)
    ensures Good(KeysAfter(keys, f), Credit(f.gen.value, f.skb))
  {
    PassingIsAccepted(keys, f);
    WindowRemembers(keys, f);
    hide Opened, Accepts, Remembers, PidOf, KeysAfter;
    AcceptsKeepsUp(keys, f);
  }

  lemma CreditsGrow(keys: Keys, f: Flight, cs: seq<Credit>)
    requires Sound(keys, cs) && Known(keys, f)
    ensures Sound(KeysAfter(keys, f), CreditsAfter(keys, f, cs))
  {
    assert Passes(keys, f) ==> f.gen.Some?;
    hide Good, Passes, KeysAfter, PidOf, Known;
    forall c | c in cs
      ensures Good(KeysAfter(keys, f), c)
      ensures Passes(keys, f) ==> c.gen != f.gen.value || PidOf(c.skb) != PidOf(f.skb)
    {
      GoodStaysGood(keys, f, c);
      if Passes(keys, f) {
        PassingIsNew(keys, f, c);
      }
    }
    if Passes(keys, f) {
      PassingIsGood(keys, f);
    }
  }

  // What is delivered was earned

  /** A payload on its way to the tun device, with the tag of the packet it came in. */
  datatype Inner = Inner(tag: nat, payload: Bytes)

  ghost function InnerOf(keys: Keys, c: Credit): Inner {
    Inner(c.skb.tag, if Authentic(keys, c.gen, c.skb) then Payload(keys, c.gen, c.skb) else [])
  }

  /** What the credited packets carried, in the order in which they passed. */
  ghost function Inners(keys: Keys, cs: seq<Credit>): seq<Inner> {
    seq(|cs|, k requires 0 <= k < |cs| => InnerOf(keys, cs[k]))
  }

  /** Each is the payload of a credit of its own, in order. */
  ghost predicate Earned(keys: Keys, xs: seq<Inner>, cs: seq<Credit>) {
    Subsequence(xs, Inners(keys, cs))
  }

  /** Generations keep their ciphers, whatever their windows do. */
  ghost predicate SameCiphers(keys: Keys, keys': Keys) {
    forall g :: g in keys.slots ==>
      g in keys'.slots && keys'.slots[g].open == keys.slots[g].open && keys'.slots[g].tail == keys.slots[g].tail
  }

  lemma InnersLast(keys: Keys, keys': Keys, cs: seq<Credit>)
    requires Sound(keys, cs) && SameCiphers(keys, keys')
    ensures Inners(keys', cs) == Inners(keys, cs)
  {
    hide Opened, Accepts, Remembers, Distinct;
    forall k | 0 <= k < |cs| ensures InnerOf(keys', cs[k]) == InnerOf(keys, cs[k]) {
      assert Good(keys, cs[k]);
    }
  }

  lemma PassingEarns(keys: Keys, f: Flight, cs: seq<Credit>, xs: seq<Inner>)
    requires Sound(keys, cs) && Sane(keys) && Earned(keys, xs, cs)
    ensures var keys', cs' := KeysAfter(keys, f), CreditsAfter(keys, f, cs);
      && Earned(keys', xs, cs')
      && (Passes(keys, f) ==> Earned(keys', xs + [Inner(f.skb.tag, Payload(keys, f.gen.value, f.skb))], cs'))
  {
    var keys', cs' := KeysAfter(keys, f), CreditsAfter(keys, f, cs);
    WindowsKeepCiphers(keys, f);
    InnersLast(keys, keys', cs);
    if Passes(keys, f) {
      hide Subsequence, Opened, Receive, Judge, Sound;
      var c := Credit(f.gen.value, f.skb);
      assert InnerOf(keys', c) == Inner(f.skb.tag, Payload(keys, f.gen.value, f.skb));
      assert Inners(keys', cs + [c]) == Inners(keys', cs) + [InnerOf(keys', c)];
      SubsequenceGrows(xs, Inners(keys, cs), InnerOf(keys', c));
    }
  }

  lemma WindowsKeepCiphers(keys: Keys, f: Flight)
    requires Sane(keys)
    ensures SameCiphers(keys, KeysAfter(keys, f)) && Sane(KeysAfter(keys, f))
  {
    hide Opened, Receive;
  }

  lemma ChangesKeepCiphers(keys: Keys, keys': Keys)
    requires Extends(keys, keys')
    ensures SameCiphers(keys, keys')
  {
  }

  // A ring of packets, one after the other, with no key change meanwhile

  ghost function Took(keys: Keys, skb: Skb): Flight {
    Flight(skb, if skb.data == [] then None else Lookup(keys, KeyIdFromSkb(skb.data)))
  }

  ghost function KeysAfterAll(keys: Keys, skbs: seq<Skb>): Keys {
    if skbs == [] then keys
    else
      var before := KeysAfterAll(keys, skbs[..|skbs|-1]);
      KeysAfter(before, Took(before, skbs[|skbs|-1]))
  }

  ghost function CreditsOf(keys: Keys, skbs: seq<Skb>): seq<Credit> {
    if skbs == [] then []
    else
      var before := KeysAfterAll(keys, skbs[..|skbs|-1]);
      CreditsAfter(before, Took(before, skbs[|skbs|-1]), CreditsOf(keys, skbs[..|skbs|-1]))
  }
}
