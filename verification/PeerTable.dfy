/** The peer registry of a multi-peer device: hash buckets by peer ID and by transport address. Additions and
    deletions run under one lock, so each operation is one step; `holds` counts the references handed out. */
module PeerTable {
  import opened Words

  /** Address of a peer object. */
  type Handle = nat

  /** A transport address: family, IP and port. */
  datatype Addr = V4(ip: nat, port: u16) | V6(ip: nat, port: u16)

  type Buckets = seq<seq<Handle>>

  /** Unlinking a node from its list. */
  function Without(bucket: seq<Handle>, h: Handle): seq<Handle> {
    if bucket == [] then []
    else (if bucket[0] == h then [] else [bucket[0]]) + Without(bucket[1..], h)
  }

  lemma {:induction false} WithoutRemoves(bucket: seq<Handle>, h: Handle)
    ensures forall x :: x in Without(bucket, h) <==> x in bucket && x != h
    decreases |bucket|
  {
    if bucket != [] {
      WithoutRemoves(bucket[1..], h);
    }
  }

  /** The buckets hold exactly the peers of `place`, each in the bucket it names. */
  ghost predicate Indexed(buckets: Buckets, place: map<Handle, nat>) {
    && (forall b, h :: 0 <= b < |buckets| ==> (h in buckets[b] <==> h in place && place[h] == b))
    && (forall h :: h in place ==> place[h] < |buckets|)
  }

  function Link(buckets: Buckets, b: nat, h: Handle): Buckets
    requires b < |buckets|
  {
    buckets[b := [h] + buckets[b]]
  }

  function Unlink(buckets: Buckets, b: nat, h: Handle): Buckets
    requires b < |buckets|
  {
    buckets[b := Without(buckets[b], h)]
  }

  lemma LinkIndexes(buckets: Buckets, place: map<Handle, nat>, b: nat, h: Handle)
    requires Indexed(buckets, place) && b < |buckets| && h !in place
    ensures Indexed(Link(buckets, b, h), place[h := b]) && |Link(buckets, b, h)| == |buckets|
  {
  }

  lemma UnlinkIndexes(buckets: Buckets, place: map<Handle, nat>, h: Handle)
    requires Indexed(buckets, place) && h in place
    ensures place[h] < |buckets| && Indexed(Unlink(buckets, place[h], h), place - {h})
    ensures |Unlink(buckets, place[h], h)| == |buckets|
  {
    WithoutRemoves(buckets[place[h]], h);
  }

  /** `table` maps the ID of each listed peer to it and nothing else; a listed peer is in the bucket of its ID. */
  ghost predicate Tabled(table: map<u32, Handle>, id: map<Handle, u32>, place: map<Handle, nat>,
                         hash: u32 -> nat, size: nat) {
    && size > 0
    && (forall h :: h in place ==> h in id && place[h] == hash(id[h]) % size && id[h] in table && table[id[h]] == h)
    && (forall i :: i in table ==> table[i] in place && id[table[i]] == i)
  }

  lemma TabledNew(table: map<u32, Handle>, id: map<Handle, u32>, place: map<Handle, nat>,
                  hash: u32 -> nat, size: nat, h: Handle, i: u32)
    requires Tabled(table, id, place, hash, size) && h !in id
    ensures Tabled(table, id[h := i], place, hash, size)
  {
  }

  lemma TabledAdd(table: map<u32, Handle>, id: map<Handle, u32>, place: map<Handle, nat>,
                  hash: u32 -> nat, size: nat, h: Handle)
    requires Tabled(table, id, place, hash, size) && h in id && id[h] !in table
    ensures h !in place
    ensures Tabled(table[id[h] := h], id, place[h := hash(id[h]) % size], hash, size)
  {
  }

  lemma TabledDel(table: map<u32, Handle>, id: map<Handle, u32>, place: map<Handle, nat>,
                  hash: u32 -> nat, size: nat, h: Handle)
    requires Tabled(table, id, place, hash, size) && h in place
    ensures Tabled(table - {id[h]}, id, place - {h}, hash, size)
  {
  }

  lemma PlaceOf(table: map<u32, Handle>, id: map<Handle, u32>, place: map<Handle, nat>,
                hash: u32 -> nat, size: nat, h: Handle)
    requires Tabled(table, id, place, hash, size) && h in place
    ensures h in id && place[h] == hash(id[h]) % size && id[h] in table && table[id[h]] == h
  {
  }

  /** A count is the table's reference, if it has one, plus those handed out. */
  ghost predicate Counted(refs: map<Handle, nat>, listed: set<Handle>, holds: multiset<Handle>) {
    && (forall h :: h in refs ==> refs[h] == holds[h] + (if h in listed then 1 else 0))
    && (forall h :: h in holds || h in listed ==> h in refs)
  }

  lemma CountedNew(refs: map<Handle, nat>, listed: set<Handle>, holds: multiset<Handle>, h: Handle)
    requires Counted(refs, listed, holds) && h !in refs
    ensures Counted(refs[h := 1], listed, holds[h := holds[h] + 1])
  {
    assert h !in holds && h !in listed;
  }

  lemma CountedHold(refs: map<Handle, nat>, listed: set<Handle>, holds: multiset<Handle>, h: Handle)
    requires Counted(refs, listed, holds) && h in refs
    ensures Counted(refs[h := refs[h] + 1], listed, holds[h := holds[h] + 1])
  {
  }

  lemma CountedPut(refs: map<Handle, nat>, listed: set<Handle>, holds: multiset<Handle>, h: Handle)
    requires Counted(refs, listed, holds) && h in holds
    ensures h in refs && refs[h] > 0
    ensures Counted(refs[h := refs[h] - 1], listed, holds[h := holds[h] - 1])
  {
  }

  lemma CountedAdd(refs: map<Handle, nat>, listed: set<Handle>, holds: multiset<Handle>, h: Handle)
    requires Counted(refs, listed, holds) && h in holds && h !in listed
    ensures Counted(refs, listed + {h}, holds[h := holds[h] - 1])
  {
  }

  lemma CountedDel(refs: map<Handle, nat>, listed: set<Handle>, holds: multiset<Handle>, h: Handle)
    requires Counted(refs, listed, holds) && h in listed
    ensures h in refs && refs[h] > 0
    ensures Counted(refs[h := refs[h] - 1], listed - {h}, holds)
  {
  }

  /** The references the table took in additions are still there or were dropped, one for one. */
  ghost predicate DroppedOnce(listed: set<Handle>, added: multiset<Handle>, dropped: multiset<Handle>) {
    forall h: Handle :: added[h] == dropped[h] + (if h in listed then 1 else 0)
  }

  lemma DroppedAdd(listed: set<Handle>, added: multiset<Handle>, dropped: multiset<Handle>, h: Handle)
    requires DroppedOnce(listed, added, dropped) && h !in listed
    ensures DroppedOnce(listed + {h}, added[h := added[h] + 1], dropped)
  {
    forall x: Handle ensures added[h := added[h] + 1][x] == dropped[x] + (if x in listed + {h} then 1 else 0) {
      assert added[x] == dropped[x] + (if x in listed then 1 else 0);
    }
  }

  lemma DroppedDel(listed: set<Handle>, added: multiset<Handle>, dropped: multiset<Handle>, h: Handle)
    requires DroppedOnce(listed, added, dropped) && h in listed
    ensures DroppedOnce(listed - {h}, added, dropped[h := dropped[h] + 1])
  {
    forall x: Handle ensures added[x] == dropped[h := dropped[h] + 1][x] + (if x in listed - {h} then 1 else 0) {
      assert added[x] == dropped[x] + (if x in listed then 1 else 0);
    }
  }

  /** Everything the registry and the peer objects hold. `place` and `home` say in which bucket by ID and by
      address a peer is linked, `origin` under which address that was, `floated` whose address moved since, and
      `holds` counts references handed out. */
  datatype Model = Model(
    byId: Buckets,
    byTransp: Buckets,
    id: map<Handle, u32>,
    refs: map<Handle, nat>,
    bind: map<Handle, Addr>,
    home: map<Handle, nat>,
    origin: map<Handle, Addr>,
    floated: set<Handle>,
    table: map<u32, Handle>,
    place: map<Handle, nat>,
    holds: multiset<Handle>,
    added: multiset<Handle>,
    dropped: multiset<Handle>)

  ghost predicate Sound(m: Model, hash: u32 -> nat, size: nat) {
    && |m.byId| == |m.byTransp| == size
    && Indexed(m.byId, m.place) && Tabled(m.table, m.id, m.place, hash, size)
    && Indexed(m.byTransp, m.home) && m.home.Keys <= m.place.Keys
    && m.refs.Keys == m.id.Keys && Counted(m.refs, m.place.Keys, m.holds)
    && DroppedOnce(m.place.Keys, m.added, m.dropped)
  }

  /** Every listed peer with an address is linked in the bucket of the address it was added with, and that is
      still its address unless it moved. */
  ghost predicate Homed(m: Model, addrHash: Addr -> nat, size: nat) {
    && size > 0
    && (forall h :: h in m.place && h in m.bind ==> h in m.home)
    && (forall h :: h in m.home ==> h in m.bind && h in m.origin && m.home[h] == addrHash(m.origin[h]) % size)
    && (forall h :: h in m.home && h !in m.floated ==> m.bind[h] == m.origin[h])
    && (forall h :: h in m.place || h in m.home || h in m.bind ==> h in m.id)
  }

  ghost function Created(m: Model, h: Handle, peerId: u32, remote: Option<Addr>): Model {
    m.(id := m.id[h := peerId], refs := m.refs[h := 1], holds := m.holds[h := m.holds[h] + 1],
       bind := if remote.Some? then m.bind[h := remote.value] else m.bind)
  }

  ghost function Held(m: Model, h: Handle): Model
    requires h in m.refs
  {
    m.(refs := m.refs[h := m.refs[h] + 1], holds := m.holds[h := m.holds[h] + 1])
  }

  ghost function PutBack(m: Model, h: Handle): Model
    requires h in m.refs && m.refs[h] > 0 && h in m.holds
  {
    m.(refs := m.refs[h := m.refs[h] - 1], holds := m.holds[h := m.holds[h] - 1])
  }

  /** The table takes over the reference of the caller. */
  ghost function Inserted(m: Model, hash: u32 -> nat, addrHash: Addr -> nat, size: nat, h: Handle): Model
    requires h in m.id && h in m.holds && 0 < size == |m.byId| == |m.byTransp|
  {
    var index := hash(m.id[h]) % size;
    var linked := m.(byId := Link(m.byId, index, h), place := m.place[h := index], table := m.table[m.id[h] := h],
                     holds := m.holds[h := m.holds[h] - 1], added := m.added[h := m.added[h] + 1]);
    if h !in m.bind then linked
    else
      var at := addrHash(m.bind[h]) % size;
      linked.(byTransp := Link(m.byTransp, at, h), home := m.home[h := at],
              floated := m.floated - {h}, origin := m.origin[h := m.bind[h]])
  }

  /** The table gives its reference up. */
  ghost function Removed(m: Model, hash: u32 -> nat, size: nat, h: Handle): Model
    requires h in m.id && h in m.refs && m.refs[h] > 0 && 0 < size == |m.byId|
    requires h in m.home ==> m.home[h] < |m.byTransp|
  {
    m.(byId := Unlink(m.byId, hash(m.id[h]) % size, h), place := m.place - {h}, table := m.table - {m.id[h]},
       byTransp := if h in m.home then Unlink(m.byTransp, m.home[h], h) else m.byTransp, home := m.home - {h},
       refs := m.refs[h := m.refs[h] - 1], dropped := m.dropped[h := m.dropped[h] + 1])
  }

  /** A packet from another address moves the binding, if there is one and the address is acceptable. */
  ghost function Floated(m: Model, h: Handle, src: Addr, acceptable: bool): Model {
    if h in m.bind && m.bind[h] != src && acceptable
    then m.(bind := m.bind[h := src], floated := m.floated + {h})
    else m
  }

  lemma CreatedHomed(m: Model, addrHash: Addr -> nat, size: nat, h: Handle, i: u32, remote: Option<Addr>)
    requires Homed(m, addrHash, size) && h !in m.id
    ensures Homed(Created(m, h, i, remote), addrHash, size)
  {
  }

  lemma FloatStaysHomed(m: Model, addrHash: Addr -> nat, size: nat, h: Handle, src: Addr, acceptable: bool)
    requires Homed(m, addrHash, size)
    ensures Homed(Floated(m, h, src, acceptable), addrHash, size)
  {
  }

  lemma InsertedHomed(m: Model, hash: u32 -> nat, addrHash: Addr -> nat, size: nat, h: Handle)
    requires Homed(m, addrHash, size) && h in m.id && h in m.holds && size == |m.byId| == |m.byTransp|
    ensures Homed(Inserted(m, hash, addrHash, size, h), addrHash, size)
  {
    hide Link;
  }

  lemma RemovedHomed(m: Model, hash: u32 -> nat, addrHash: Addr -> nat, size: nat, h: Handle)
    requires Homed(m, addrHash, size) && RemovableFrom(m, size, h)
    ensures Homed(Removed(m, hash, size, h), addrHash, size)
  {
    hide Unlink;
  }

  /** Counts play no part in where peers are linked. */
  lemma RecountHomed(m: Model, addrHash: Addr -> nat, size: nat, refs: map<Handle, nat>, holds: multiset<Handle>)
    requires Homed(m, addrHash, size)
    ensures Homed(m.(refs := refs, holds := holds), addrHash, size)
  {
  }

  lemma CreatedSound(m: Model, hash: u32 -> nat, size: nat, h: Handle, peerId: u32, remote: Option<Addr>)
    requires Sound(m, hash, size) && h !in m.id
    ensures Sound(Created(m, h, peerId, remote), hash, size)
  {
    hide Indexed, Tabled, Counted, DroppedOnce;
    TabledNew(m.table, m.id, m.place, hash, size, h, peerId);
    CountedNew(m.refs, m.place.Keys, m.holds, h);
  }

  lemma HeldSound(m: Model, hash: u32 -> nat, size: nat, h: Handle)
    requires Sound(m, hash, size) && h in m.refs
    ensures Sound(Held(m, h), hash, size)
  {
    hide Indexed, Tabled, Counted, DroppedOnce;
    CountedHold(m.refs, m.place.Keys, m.holds, h);
  }

  lemma PutBackSound(m: Model, hash: u32 -> nat, size: nat, h: Handle)
    requires Sound(m, hash, size) && h in m.holds
    ensures h in m.refs && m.refs[h] > 0 && Sound(PutBack(m, h), hash, size)
  {
    hide Indexed, Tabled, Counted, DroppedOnce;
    CountedPut(m.refs, m.place.Keys, m.holds, h);
  }

  lemma InsertedSound(m: Model, hash: u32 -> nat, addrHash: Addr -> nat, size: nat, h: Handle)
    requires Sound(m, hash, size) && h in m.holds && h in m.id && m.id[h] !in m.table && size > 0
    ensures Sound(Inserted(m, hash, addrHash, size, h), hash, size)
  {
    hide Indexed, Tabled, Counted, DroppedOnce, Link;
    var index := hash(m.id[h]) % size;
    TabledAdd(m.table, m.id, m.place, hash, size, h);
    LinkIndexes(m.byId, m.place, index, h);
    CountedAdd(m.refs, m.place.Keys, m.holds, h);
    DroppedAdd(m.place.Keys, m.added, m.dropped, h);
    assert m.place[h := index].Keys == m.place.Keys + {h};
    if h in m.bind {
      LinkIndexes(m.byTransp, m.home, addrHash(m.bind[h]) % size, h);
    }
  }

  lemma RemovedSound(m: Model, hash: u32 -> nat, size: nat, h: Handle)
    requires Sound(m, hash, size) && h in m.place
    ensures size > 0 && h in m.id && m.id[h] in m.table && h in m.refs && m.refs[h] > 0
    ensures h in m.home ==> m.home[h] < |m.byTransp|
    ensures Sound(Removed(m, hash, size, h), hash, size)
  {
    hide Indexed, Tabled, Counted, DroppedOnce, Unlink;
    PlaceOf(m.table, m.id, m.place, hash, size, h);
    TabledDel(m.table, m.id, m.place, hash, size, h);
    UnlinkIndexes(m.byId, m.place, h);
    CountedDel(m.refs, m.place.Keys, m.holds, h);
    DroppedDel(m.place.Keys, m.added, m.dropped, h);
    assert (m.home - {h}).Keys == m.home.Keys - {h} && (m.place - {h}).Keys == m.place.Keys - {h};
    if h in m.home {
      UnlinkIndexes(m.byTransp, m.home, h);
    } else {
      assert m.home - {h} == m.home;
    }
  }

  /** The bucket of an ID holds the peer the table has for it, and no other peer with that ID. */
  lemma BucketFinds(m: Model, hash: u32 -> nat, size: nat, i: u32)
    requires Sound(m, hash, size) && size > 0
    ensures var bucket := m.byId[hash(i) % size];
      && (i in m.table ==> m.table[i] in bucket && m.table[i] in m.id && m.id[m.table[i]] == i)
      && (forall h :: h in bucket ==> h in m.place && h in m.id && h in m.refs && m.refs[h] > 0)
      && (forall h :: h in m.id ==> (h in m.place <==> m.id[h] in m.table && m.table[m.id[h]] == h))
      && (forall h :: h in bucket && m.id[h] == i ==> i in m.table && m.table[i] == h)
  {
  }

  lemma HoldThenPut(m: Model, h: Handle)
    requires h in m.refs
    ensures h in Held(m, h).holds && PutBack(Held(m, h), h) == m
  {
    assert m.refs[h := m.refs[h] + 1][h := m.refs[h]] == m.refs;
    assert m.holds[h := m.holds[h] + 1][h := m.holds[h]] == m.holds;
  }

  /** What removing a listed peer relies on. */
  ghost predicate RemovableFrom(m: Model, size: nat, h: Handle) {
    && h in m.id && h in m.refs && m.refs[h] > 0 && 0 < size == |m.byId|
    && (h in m.home ==> m.home[h] < |m.byTransp|)
  }

  lemma HoldRemovePut(m: Model, hash: u32 -> nat, size: nat, h: Handle)
    requires RemovableFrom(m, size, h)
    ensures var removed := Removed(Held(m, h), hash, size, h);
      h in removed.holds && removed.refs[h] > 0 && PutBack(removed, h) == Removed(m, hash, size, h)
  {
    hide Unlink;
    var removed := Removed(Held(m, h), hash, size, h);
    assert removed.refs[h := m.refs[h] - 1] == m.refs[h := m.refs[h] - 1];
    assert m.holds[h := m.holds[h] + 1][h := m.holds[h]] == m.holds;
  }

  /** What every peer but `h` is: its ID, its address, its count and what is held of it. */
  ghost predicate Untouched(m: Model, m': Model, h: Handle) {
    forall x :: x != h ==>
      && (x in m'.id <==> x in m.id) && (x in m.id ==> m'.id[x] == m.id[x])
      && (x in m'.bind <==> x in m.bind) && (x in m.bind ==> m'.bind[x] == m.bind[x])
      && (x in m'.refs <==> x in m.refs) && (x in m.refs ==> m'.refs[x] == m.refs[x])
      && m'.holds[x] == m.holds[x]
  }

  lemma CreatedMeans(m: Model, addrHash: Addr -> nat, size: nat, h: Handle, peerId: u32, remote: Option<Addr>)
    requires h !in m.id && Homed(m, addrHash, size)
    ensures var m' := Created(m, h, peerId, remote);
      && h in m'.id && m'.id[h] == peerId && h in m'.refs && m'.refs[h] == 1 && m'.holds[h] == m.holds[h] + 1
      && (remote.Some? ==> h in m'.bind && m'.bind[h] == remote.value)
      && (remote.None? ==> h !in m'.bind)
      && m'.table == m.table && m'.place == m.place && m'.home == m.home
      && Untouched(m, m', h)
  {
  }

  lemma InsertedMeans(m: Model, hash: u32 -> nat, addrHash: Addr -> nat, size: nat, h: Handle)
    requires h in m.id && h in m.holds && 0 < size == |m.byId| == |m.byTransp|
    ensures var m' := Inserted(m, hash, addrHash, size, h);
      && m'.table == m.table[m.id[h] := h] && h in m'.place
      && m'.refs == m.refs && m'.holds[h] == m.holds[h] - 1 && m'.bind == m.bind
      && (h in m'.bind ==> LinkedFor(m', addrHash, size, m'.bind[h], h))
      && Untouched(m, m', h)
  {
    hide Link;
    var m' := Inserted(m, hash, addrHash, size, h);
    assert m'.id == m.id && m'.bind == m.bind && m'.refs == m.refs && m'.holds == m.holds[h := m.holds[h] - 1];
    OneHoldMoved(m, m', h, m.holds[h] - 1);
    hide Untouched;
  }

  lemma OneHoldMoved(m: Model, m': Model, h: Handle, n: nat)
    requires m'.id == m.id && m'.bind == m.bind && m'.refs == m.refs && m'.holds == m.holds[h := n]
    ensures Untouched(m, m', h)
  {
  }

  lemma RemovedMeans(m: Model, hash: u32 -> nat, size: nat, h: Handle)
    requires RemovableFrom(m, size, h)
    ensures var m' := Removed(m, hash, size, h);
      && m'.table == m.table - {m.id[h]} && h !in m'.place && h !in m'.home
      && h in m'.refs && m'.refs[h] == m.refs[h] - 1 && m'.holds == m.holds && m'.bind == m.bind
      && Untouched(m, m', h)
  {
    hide Unlink;
  }

  lemma HeldMeans(m: Model, h: Handle)
    requires h in m.refs
    ensures var m' := Held(m, h);
      && h in m'.refs && m'.refs[h] == m.refs[h] + 1 && m'.holds[h] == m.holds[h] + 1
      && Untouched(m, m', h) && m'.table == m.table && m'.bind == m.bind
  {
  }

  /** A peer made with an address and then added under a free ID is what a lookup of that ID gives, and is linked for
      that address, so that a lookup of the address gives some peer bound to it. */
  lemma NewPeerIsFound(m: Model, hash: u32 -> nat, addrHash: Addr -> nat, size: nat, h: Handle, peerId: u32, a: Addr)
    requires Sound(m, hash, size) && Homed(m, addrHash, size) && h !in m.id && peerId !in m.table
    ensures var made := Created(m, h, peerId, Some(a));
      && h in made.id && h in made.holds && 0 < size == |made.byId| == |made.byTransp|
      && var added := Inserted(made, hash, addrHash, size, h);
         && peerId in added.table && added.table[peerId] == h
         && LinkedFor(added, addrHash, size, a, h)
  {
    hide Link, Sound;
    SoundSizes(m, hash, size);
  }

  lemma SoundSizes(m: Model, hash: u32 -> nat, size: nat)
    requires Sound(m, hash, size)
    ensures |m.byId| == |m.byTransp| == size && m.refs.Keys == m.id.Keys
  {
  }

  class Registry {
    /** Any hash functions will do. */
    const idHash: u32 -> nat
    const addrHash: Addr -> nat
    const size: nat
    var m: Model

    ghost predicate Valid()
      reads this
    {
      size > 0 && Sound(m, idHash, size) && Homed(m, addrHash, size)
    }

    constructor (idHash: u32 -> nat, addrHash: Addr -> nat, size: nat)
      requires size > 0
      ensures Valid() && m.table == map[] && m.id == map[]
      ensures m.holds == m.added == m.dropped == multiset{}
      ensures this.idHash == idHash && this.addrHash == addrHash && this.size == size
    {
      this.idHash, this.addrHash, this.size := idHash, addrHash, size;
      m := Model(seq(size, _ => []), seq(size, _ => []), map[], map[], map[], map[], map[], {}, map[], map[],
                 multiset{}, multiset{}, multiset{});
    }

    method Create(h: Handle, peerId: u32, remote: Option<Addr>)
      requires Valid() && h !in m.id
      modifies this
      ensures Valid() && m == Created(old(m), h, peerId, remote)
    {
      CreatedSound(m, idHash, size, h, peerId, remote);
      CreatedHomed(m, addrHash, size, h, peerId, remote);
      hide Sound, Homed;
      var bind := m.bind;
      if remote.Some? {
        bind := bind[h := remote.value];
      }
      m := m.(id := m.id[h := peerId], refs := m.refs[h := 1], holds := m.holds[h := m.holds[h] + 1], bind := bind);
    }

    /** A new peer object belongs to its creator, is bound to its address if it has one, and is not listed yet. */
    method New(h: Handle, peerId: u32, remote: Option<Addr>)
      requires Valid() && h !in m.id
      modifies this
      ensures Valid() && m == Created(old(m), h, peerId, remote)
      ensures m.id[h] == peerId && m.refs[h] == 1 && m.holds[h] == old(m).holds[h] + 1
      ensures remote.Some? ==> h in m.bind && m.bind[h] == remote.value
      ensures remote.None? ==> h !in m.bind
      ensures m.table == old(m).table && m.place == old(m).place && m.home == old(m).home
      ensures Untouched(old(m), m, h)
    {
      CreatedMeans(m, addrHash, size, h, peerId, remote);
      hide Sound, Homed, Created, Untouched;
      Create(h, peerId, remote);
    }

    /** `kref_get_unless_zero`. */
    method Hold(h: Handle) returns (ok: bool)
      requires Valid() && h in m.refs
      modifies this
      ensures Valid() && ok == (old(m).refs[h] > 0)
      ensures m == if ok then Held(old(m), h) else old(m)
      ensures m.refs[h] == old(m).refs[h] + (if ok then 1 else 0)
      ensures m.holds[h] == old(m).holds[h] + (if ok then 1 else 0)
      ensures Untouched(old(m), m, h) && m.table == old(m).table && m.bind == old(m).bind
    {
      hide Sound, Homed;
      ok := m.refs[h] > 0;
      if ok {
        HeldSound(m, idHash, size, h);
        HeldMeans(m, h);
        RecountHomed(m, addrHash, size, m.refs[h := m.refs[h] + 1], m.holds[h := m.holds[h] + 1]);
        m := m.(refs := m.refs[h := m.refs[h] + 1], holds := m.holds[h := m.holds[h] + 1]);
      }
    }

    method Put(h: Handle)
      requires Valid() && h in m.holds
      modifies this
      ensures Valid() && h in old(m).refs && old(m).refs[h] > 0 && m == PutBack(old(m), h)
      ensures m.refs[h] == old(m).refs[h] - 1 && m.holds[h] == old(m).holds[h] - 1
      ensures Untouched(old(m), m, h) && m.table == old(m).table && m.bind == old(m).bind
    {
      hide Sound, Homed;
      PutBackSound(m, idHash, size, h);
      RecountHomed(m, addrHash, size, m.refs[h := m.refs[h] - 1], m.holds[h := m.holds[h] - 1]);
      m := m.(refs := m.refs[h := m.refs[h] - 1], holds := m.holds[h := m.holds[h] - 1]);
    }

    /** Finds a peer by ID and takes a reference to it. */
    method LookupId(peerId: u32) returns (found: Option<Handle>)
      requires Valid()
      modifies this
      ensures Valid()
      ensures found == if peerId in old(m).table then Some(old(m).table[peerId]) else None
      ensures found.None? ==> m == old(m)
      ensures found.Some? ==> found.value in old(m).refs && m == Held(old(m), found.value)
    {
      hide Sound, Homed;
      SoundSizes(m, idHash, size);
      BucketFinds(m, idHash, size, peerId);
      var bucket := m.byId[idHash(peerId) % size];
      var k := 0;
      while k < |bucket|
        invariant k <= |bucket| && m == old(m)
        invariant forall j :: 0 <= j < k ==> m.id[bucket[j]] != peerId
      {
        var tmp := bucket[k];
        if m.id[tmp] == peerId {
          var ok := Hold(tmp);
          if ok {
            return Some(tmp);
          }
        }
        k := k + 1;
      }
      return None;
    }

    /** Links a peer in the bucket of its address, if it has one, and of its ID. */
    method Insert(h: Handle)
      requires Valid() && h in m.holds && h in m.id && m.id[h] !in m.table
      modifies this
      ensures Valid() && |old(m).byId| == |old(m).byTransp| == size
      ensures m == Inserted(old(m), idHash, addrHash, size, h)
    {
      hide Sound, Homed, Link;
      SoundSizes(m, idHash, size);
      InsertedSound(m, idHash, addrHash, size, h);
      InsertedHomed(m, idHash, addrHash, size, h);
      if h in m.bind {
        var at := addrHash(m.bind[h]) % size;
        m := m.(byTransp := Link(m.byTransp, at, h), home := m.home[h := at],
                floated := m.floated - {h}, origin := m.origin[h := m.bind[h]]);
      }
      var index := idHash(m.id[h]) % size;
      m := m.(byId := Link(m.byId, index, h), place := m.place[h := index], table := m.table[m.id[h] := h],
              holds := m.holds[h := m.holds[h] - 1], added := m.added[h := m.added[h] + 1]);
    }

    /** Adds a peer under the reference its caller holds, unless its ID is taken. */
    method Add(h: Handle) returns (ok: bool)
      requires Valid() && h in m.holds && h in m.id
      modifies this
      ensures Valid() && ok == (old(m).id[h] !in old(m).table) && |old(m).byId| == |old(m).byTransp| == size
      ensures m == if ok then Inserted(old(m), idHash, addrHash, size, h) else old(m)
      ensures ok ==> m.table == old(m).table[old(m).id[h] := h] && h in m.place
      ensures ok ==> m.refs == old(m).refs && m.holds[h] == old(m).holds[h] - 1 && m.bind == old(m).bind
      ensures ok && h in m.bind ==> LinkedFor(m, addrHash, size, m.bind[h], h)
      ensures Untouched(old(m), m, h)
    {
      SoundSizes(m, idHash, size);
      assert Untouched(m, m, h);
      hide Sound, Homed, Inserted, Held, PutBack, Untouched, LinkedFor;
      var tmp := LookupId(m.id[h]);
      if tmp.Some? {
        HoldThenPut(old(m), tmp.value);
        Put(tmp.value);
        return false;
      }
      InsertedMeans(m, idHash, addrHash, size, h);
      Insert(h);
      return true;
    }

    /** Takes a peer out of all buckets and drops the table's reference. */
    method Unhash(h: Handle)
      requires Valid() && h in m.place
      modifies this
      ensures Valid() && RemovableFrom(old(m), size, h) && m == Removed(old(m), idHash, size, h)
      ensures m.table == old(m).table - {old(m).id[h]} && h !in m.place && h !in m.home
      ensures m.refs[h] == old(m).refs[h] - 1 && m.holds == old(m).holds && m.bind == old(m).bind
      ensures Untouched(old(m), m, h)
    {
      hide Sound, Homed, Unlink;
      SoundSizes(m, idHash, size);
      RemovedSound(m, idHash, size, h);
      RemovedHomed(m, idHash, addrHash, size, h);
      RemovedMeans(m, idHash, size, h);
      hide Untouched;
      if h in m.home {
        m := m.(byTransp := Unlink(m.byTransp, m.home[h], h));
      }
      m := m.(byId := Unlink(m.byId, idHash(m.id[h]) % size, h), home := m.home - {h});
      m := m.(table := m.table - {m.id[h]}, place := m.place - {h});
      m := m.(refs := m.refs[h := m.refs[h] - 1], dropped := m.dropped[h := m.dropped[h] + 1]);
    }

    /** Deletes a peer; only while the table has it, however many callers try. */
    method Del(h: Handle) returns (ok: bool)
      requires Valid() && h in m.id
      modifies this
      ensures Valid() && ok == (h in old(m).place)
      ensures !ok ==> m == old(m)
      ensures ok ==> RemovableFrom(old(m), size, h) && m == Removed(old(m), idHash, size, h)
    {
      hide Sound, Homed, Held, PutBack, Removed;
      SoundSizes(m, idHash, size);
      BucketFinds(m, idHash, size, m.id[h]);
      var tmp := LookupId(m.id[h]);
      if tmp != Some(h) {
        if tmp.Some? {
          HoldThenPut(old(m), tmp.value);
          Put(tmp.value);
        }
        return false;
      }
      HeldKeepsPlace(old(m), h);
      Unhash(h);
      RemovedSound(old(m), idHash, size, h);
      HoldRemovePut(old(m), idHash, size, h);
      Put(h);
      return true;
    }

    /** Takes every peer out, bucket by bucket. */
    method FreeAll()
      requires Valid()
      modifies this
      ensures Valid() && m.place == map[] && m.table == map[]
      ensures m.id == old(m).id && m.holds == old(m).holds && m.added == m.dropped == old(m).added
      ensures forall h :: h in m.refs ==> m.refs[h] == m.holds[h]
    {
      hide Sound, Homed;
      var b := 0;
      SoundSizes(m, idHash, size);
      while b < size
        invariant Valid() && b <= size == |m.byId|
        invariant forall c :: 0 <= c < b ==> m.byId[c] == []
        invariant m.id == old(m).id && m.holds == old(m).holds && m.added == old(m).added
      {
        while m.byId[b] != []
          invariant Valid() && b < size == |m.byId|
          invariant forall c :: 0 <= c < b ==> m.byId[c] == []
          invariant m.id == old(m).id && m.holds == old(m).holds && m.added == old(m).added
          decreases |m.place|
        {
          var h := m.byId[b][0];
          LinkedIsPlaced(m, idHash, size, b, h);
          FreeOne(h, b);
        }
        b := b + 1;
      }
      AllFreed(m, idHash, size);
    }

    method FreeOne(h: Handle, b: nat)
      requires Valid() && h in m.place && b < size == |m.byId| && h in m.byId[b]
      modifies this
      ensures Valid() && |m.byId| == size
      ensures forall c :: 0 <= c < b && old(m).byId[c] == [] ==> m.byId[c] == []
      ensures m.id == old(m).id && m.holds == old(m).holds && m.added == old(m).added
      ensures |m.place| < |old(m).place|
    {
      Unhash(h);
      hide Sound, Homed, Untouched;
      assert m.place.Keys == old(m).place.Keys - {h};
    }

    /** However many callers try to delete a peer, one of them succeeds if it was there, and the table drops
        its reference once. */
    method DelFromMany(h: Handle, attempts: nat) returns (wins: nat)
      requires Valid() && h in m.id
      modifies this
      ensures Valid() && h in m.id && h in old(m).refs && h in m.refs
      ensures wins == if h in old(m).place && attempts > 0 then 1 else 0
      ensures m.dropped[h] == old(m).dropped[h] + wins && m.refs[h] == old(m).refs[h] - wins
    {
      hide Sound, Homed;
      SoundSizes(m, idHash, size);
      wins := 0;
      for k := 0 to attempts
        invariant Valid() && h in m.id && h in m.refs
        invariant wins == if h in old(m).place && k > 0 then 1 else 0
        invariant wins > 0 ==> h !in m.place
        invariant wins == 0 ==> m == old(m)
        invariant m.dropped[h] == old(m).dropped[h] + wins && m.refs[h] == old(m).refs[h] - wins
      {
        var ok := Del(h);
        if ok {
          wins := wins + 1;
        }
      }
    }

    /** A packet from a new address moves the binding; the peer stays where it is linked. */
    method Float(h: Handle, src: Addr, acceptable: bool)
      requires Valid() && h in m.id
      modifies this
      ensures Valid() && m == Floated(old(m), h, src, acceptable)
      ensures m.bind == if h in old(m).bind && acceptable then old(m).bind[h := src] else old(m).bind
      ensures m == old(m).(bind := m.bind, floated := m.floated)
    {
      FloatStaysHomed(m, addrHash, size, h, src, acceptable);
      hide Homed;
      if h !in m.bind {
        return;
      }
      if m.bind[h] == src {
        return;
      }
      if acceptable {
        m := m.(bind := m.bind[h := src], floated := m.floated + {h});
      }
    }

    /** Walks the bucket of an address for a peer bound to it. */
    method SearchTransp(src: Addr) returns (found: Option<Handle>)
      requires Valid()
      modifies this
      ensures Valid()
      ensures found.Some? <==> exists h :: LinkedFor(old(m), addrHash, size, src, h)
      ensures found.Some? ==>
        && LinkedFor(old(m), addrHash, size, src, found.value)
        && found.value in old(m).refs && m == Held(old(m), found.value)
      ensures found.None? ==> m == old(m)
    {
      hide Sound, Homed;
      AddressBucket(m, idHash, addrHash, size, src);
      var bucket := m.byTransp[addrHash(src) % size];
      var k := 0;
      while k < |bucket|
        invariant k <= |bucket| && m == old(m)
        invariant forall j :: 0 <= j < k ==> !LinkedFor(m, addrHash, size, src, bucket[j])
      {
        var tmp := bucket[k];
        if tmp in m.bind && m.bind[tmp] == src {
          var ok := Hold(tmp);
          if ok {
            assert LinkedFor(old(m), addrHash, size, src, tmp);
            return Some(tmp);
          }
        }
        k := k + 1;
      }
      return None;
    }

    /** Finds a peer by the address a packet came from. The peer found is bound to that address, floated or not;
        one is found exactly when some peer bound to it is linked in the bucket of that address, and so whenever
        a listed peer bound to it has not floated, or was added with an address of the same bucket. */
    method LookupTranspAddr(src: Addr) returns (found: Option<Handle>)
      requires Valid()
      modifies this
      ensures Valid()
      ensures found.Some? <==> exists h :: LinkedFor(old(m), addrHash, size, src, h)
      ensures found.None? ==>
        forall h :: h in old(m).place && h in old(m).bind && old(m).bind[h] == src ==>
          h in old(m).floated && h in old(m).origin && addrHash(src) % size != addrHash(old(m).origin[h]) % size
      ensures found.Some? ==>
        && LinkedFor(old(m), addrHash, size, src, found.value)
        && found.value in old(m).refs && m == Held(old(m), found.value)
      ensures found.None? ==> m == old(m)
    {
      HomedIsLinked(m, addrHash, size, src);
      hide Sound, Homed, LinkedFor;
      found := SearchTransp(src);
    }
  }

  /** The peer is linked in the bucket of `src` and bound to `src`. */
  ghost predicate LinkedFor(m: Model, addrHash: Addr -> nat, size: nat, src: Addr, h: Handle) {
    && h in m.home && size > 0 && m.home[h] == addrHash(src) % size
    && h in m.bind && m.bind[h] == src
  }

  lemma HomedIsLinked(m: Model, addrHash: Addr -> nat, size: nat, src: Addr)
    requires Homed(m, addrHash, size)
    ensures forall h :: h in m.place && h in m.bind && m.bind[h] == src && !LinkedFor(m, addrHash, size, src, h) ==>
      h in m.floated && h in m.origin && addrHash(src) % size != addrHash(m.origin[h]) % size
  {
  }

  lemma AddressBucket(m: Model, hash: u32 -> nat, addrHash: Addr -> nat, size: nat, src: Addr)
    requires Sound(m, hash, size) && size > 0
    ensures |m.byTransp| == size
    ensures forall h :: h in m.byTransp[addrHash(src) % size] <==> h in m.home && m.home[h] == addrHash(src) % size
    ensures forall h :: h in m.home ==> h in m.refs && m.refs[h] > 0
  {
  }

  /** In every state a listed peer is linked for the address it is bound to exactly when that address falls into
      the bucket of the one it was added with. */
  lemma LinkedWhereAdded(m: Model, addrHash: Addr -> nat, size: nat, h: Handle)
    requires Homed(m, addrHash, size) && h in m.place && h in m.bind
    ensures h in m.origin
    ensures LinkedFor(m, addrHash, size, m.bind[h], h) <==> addrHash(m.bind[h]) % size == addrHash(m.origin[h]) % size
  {
  }

  ghost function FloatedAll(m: Model, h: Handle, srcs: seq<Addr>): Model {
    if srcs == [] then m else Floated(FloatedAll(m, h, srcs[..|srcs|-1]), h, srcs[|srcs|-1], true)
  }

  /** Floating does not relink a peer: after any number of floats it is linked for its last address exactly when
      that falls into the bucket of the one it was added with. */
  lemma {:induction false} FloatDoesNotRelink(m: Model, addrHash: Addr -> nat, size: nat, h: Handle, srcs: seq<Addr>)
    requires Homed(m, addrHash, size) && h in m.place && h in m.bind
    ensures var after := FloatedAll(m, h, srcs);
      && Homed(after, addrHash, size) && h in after.place && h in m.origin && after.origin == m.origin && h in after.bind
      && after.bind[h] == (if srcs == [] then m.bind[h] else srcs[|srcs|-1])
      && (LinkedFor(after, addrHash, size, after.bind[h], h)
          <==> addrHash(after.bind[h]) % size == addrHash(m.origin[h]) % size)
  {
    hide Homed, LinkedFor;
    if srcs != [] {
      FloatDoesNotRelink(m, addrHash, size, h, srcs[..|srcs|-1]);
      FloatStaysHomed(FloatedAll(m, h, srcs[..|srcs|-1]), addrHash, size, h, srcs[|srcs|-1], true);
    }
    LinkedWhereAdded(FloatedAll(m, h, srcs), addrHash, size, h);
  }

  lemma HeldKeepsPlace(m: Model, h: Handle)
    requires h in m.refs
    ensures Held(m, h).place == m.place
  {
  }

  lemma PlacedIsLinked(m: Model, hash: u32 -> nat, size: nat, h: Handle)
    requires Sound(m, hash, size) && h in m.place
    ensures m.place[h] < size && h in m.byId[m.place[h]]
  {
  }

  lemma LinkedIsPlaced(m: Model, hash: u32 -> nat, size: nat, b: nat, h: Handle)
    requires Sound(m, hash, size) && b < size && h in m.byId[b]
    ensures h in m.place
  {
  }

  lemma AllFreed(m: Model, hash: u32 -> nat, size: nat)
    requires Sound(m, hash, size) && forall b :: 0 <= b < size ==> m.byId[b] == []
    ensures m.place == map[] && m.table == map[] && m.added == m.dropped
    ensures forall h :: h in m.refs ==> m.refs[h] == m.holds[h]
  {
    forall h | h in m.place ensures false {
      PlacedIsLinked(m, hash, size, h);
    }
    assert forall h: Handle :: m.added[h] == m.dropped[h];
  }
}
