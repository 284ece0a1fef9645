/** The 2048-bit circular bitmap of the receiver, updated in place. */
module ReplayWindow {
  import opened Words
  import opened ReplaySpec

  const REPLAY_WINDOW_BYTES: int := 256

  /** `REPLAY_INDEX(base, i)` on unsigned words; the mask keeps the low 11 bits. */
  function ReplayIndex(base: u32, i: u32): u32 {
    (base + i) % U32_SIZE % REPLAY_WINDOW_SIZE
  }

  /** `-delta` of an unsigned word. */
  function Negated(delta: u32): u32 {
    (U32_SIZE - delta) % U32_SIZE
  }

  type Slot = k: int | 0 <= k < 2048

  /** Position `i` steps clockwise of `base` on a ring of 2048 bits. */
  function Ahead(base: Slot, i: Slot): Slot {
    if base + i < REPLAY_WINDOW_SIZE then base + i else base + i - REPLAY_WINDOW_SIZE
  }

  function Behind(base: Slot, delta: Slot): Slot {
    if delta <= base then base - delta else base - delta + REPLAY_WINDOW_SIZE
  }

  /** The wrapping index arithmetic walks the ring, forwards and backwards. */
  lemma ReplayIndexWalksTheRing(base: Slot, i: Slot)
    ensures ReplayIndex(base, i) == Ahead(base, i)
    ensures ReplayIndex(base, Negated(i)) == Behind(base, i)
  {
    assert (base + i) % U32_SIZE == base + i;
    if i <= base {
      assert i > 0 ==> base + Negated(i) == U32_SIZE + (base - i);
    } else {
      var wrapped := (base + Negated(i)) % U32_SIZE;
      assert wrapped == U32_SIZE + base - i == 2097151 * REPLAY_WINDOW_SIZE + Behind(base, i);
    }
  }

  predicate Has(b: bv8, i: nat)
    requires i < 8
  {
    b & Mask(i) != 0
  }

  function ByteBits(b: bv8): seq<bool> {
    seq(8, i requires 0 <= i < 8 => Has(b, i))
  }

  /** The byte array read as one row of bits. */
  function Bits(h: seq<bv8>): (bits: seq<bool>)
    ensures |bits| == 8 * |h|
  {
    if h == [] then [] else ByteBits(h[0]) + Bits(h[1..])
  }

  lemma {:induction false} BitsAt(h: seq<bv8>, k: nat)
    requires k < 8 * |h|
    ensures Bits(h)[k] == Has(h[k / 8], k % 8)
  {
    if k >= 8 {
      BitsAt(h[1..], k - 8);
    }
  }

  function Mask(i: nat): bv8
    requires i < 8
  {
    1 << i
  }

  lemma MasksAreDisjoint(i: nat, j: nat)
    requires i < 8 && j < 8 && i != j
    ensures Mask(i) & Mask(j) == 0 && Mask(i) != 0
  {
    assert i == 0 || i == 1 || i == 2 || i == 3 || i == 4 || i == 5 || i == 6 || i == 7;
    assert j == 0 || j == 1 || j == 2 || j == 3 || j == 4 || j == 5 || j == 6 || j == 7;
  }

  lemma DisjointMask(b: bv8, m: bv8, n: bv8)
    requires m & n == 0
    ensures (b | m) & n == b & n && (b & !m) & n == b & n
  {
  }

  lemma OrSetsOneBit(b: bv8, i: nat, j: nat)
    requires i < 8 && j < 8
    ensures Has(b | Mask(i), j) == (i == j || Has(b, j))
  {
    if i != j {
      MasksAreDisjoint(i, j);
      DisjointMask(b, Mask(i), Mask(j));
    } else {
      MasksAreDisjoint(i, (i + 1) % 8);
      OwnMask(b, Mask(i));
    }
  }

  lemma OwnMask(b: bv8, m: bv8)
    ensures (b | m) & m == m && (b & !m) & m == 0
  {
  }

  lemma AndClearsOneBit(b: bv8, i: nat, j: nat)
    requires i < 8 && j < 8
    ensures Has(b & !Mask(i), j) == (i != j && Has(b, j))
  {
    if i != j {
      MasksAreDisjoint(i, j);
      DisjointMask(b, Mask(i), Mask(j));
    } else {
      OwnMask(b, Mask(i));
    }
  }

  /** Changing one bit of one byte changes one bit of the row. */
  lemma OneBitChanged(h: seq<bv8>, k: nat, b: bv8, to: bool)
    requires k < 8 * |h|
    requires forall j :: 0 <= j < 8 ==> Has(b, j) == (if j == k % 8 then to else Has(h[k / 8], j))
    ensures Bits(h[k / 8 := b]) == Bits(h)[k := to]
  {
    var changed := h[k / 8 := b];
    forall j | 0 <= j < |Bits(changed)|
      ensures Bits(changed)[j] == Bits(h)[k := to][j]
    {
      BitsAt(changed, j);
      BitsAt(h, j);
      assert j == 8 * (j / 8) + j % 8 && k == 8 * (k / 8) + k % 8;
    }
  }

  method SetBit(h: array<bv8>, k: nat)
    requires k < 8 * h.Length
    modifies h
    ensures Bits(h[..]) == Bits(old(h[..]))[k := true]
  {
    ghost var before := h[..];
    h[k / 8] := h[k / 8] | Mask(k % 8);
    forall j | 0 <= j < 8 ensures Has(h[k / 8], j) == (j == k % 8 || Has(before[k / 8], j)) {
      OrSetsOneBit(before[k / 8], k % 8, j);
    }
    assert h[..] == before[k / 8 := h[k / 8]];
    OneBitChanged(before, k, h[k / 8], true);
  }

  method ClearBit(h: array<bv8>, k: nat)
    requires k < 8 * h.Length
    modifies h
    ensures Bits(h[..]) == Bits(old(h[..]))[k := false]
  {
    ghost var before := h[..];
    h[k / 8] := h[k / 8] & !Mask(k % 8);
    forall j | 0 <= j < 8 ensures Has(h[k / 8], j) == (j != k % 8 && Has(before[k / 8], j)) {
      AndClearsOneBit(before[k / 8], k % 8, j);
    }
    assert h[..] == before[k / 8 := h[k / 8]];
    OneBitChanged(before, k, h[k / 8], false);
  }

  method TestBit(h: array<bv8>, k: nat) returns (on: bool)
    requires k < 8 * h.Length
    ensures on == Bits(h[..])[k]
  {
    on := h[k / 8] & Mask(k % 8) != 0;
    BitsAt(h[..], k);
  }

  /** `memset` of the whole history to zero. */
  method ClearAll(h: array<bv8>)
    modifies h
    ensures forall k :: 0 <= k < 8 * h.Length ==> !Bits(h[..])[k]
  {
    forall k | 0 <= k < h.Length {
      h[k] := 0;
    }
    forall k | 0 <= k < 8 * h.Length ensures !Bits(h[..])[k] {
      BitsAt(h[..], k);
    }
  }

  method IndexAhead(base: Slot, i: Slot) returns (k: Slot)
    ensures k == Ahead(base, i)
  {
    ReplayIndexWalksTheRing(base, i);
    k := ReplayIndex(base, i);
  }

  method IndexBehind(base: Slot, delta: Slot) returns (k: Slot)
    ensures k == Behind(base, delta)
  {
    ReplayIndexWalksTheRing(base, delta);
    k := ReplayIndex(base, Negated(delta));
  }

  function WindowExtent(id: u32): Extent {
    if id < REPLAY_WINDOW_SIZE then id else REPLAY_WINDOW_SIZE
  }

  type Extent = n: int | 0 <= n <= 2048
  type Row = bits: seq<bool> | |bits| == 2048 witness seq(2048, _ => false)

  /** Of the first `extent` positions, number `i` tells whether ID `id - i` was seen. */
  ghost predicate Mirrors(bits: Row, base: Slot, id: u32, seen: set<u32>) {
    forall i: Slot :: i < WindowExtent(id) ==> bits[Ahead(base, i)] == (id - i in seen)
  }

  /** `bits` after sliding by `delta` to `base`: one new mark, then `delta - 1` blanks, then the old row. */
  ghost predicate Slid(old_: Row, bits: Row, base: Slot, delta: Slot) {
    forall j: Slot :: bits[Ahead(base, j)] == (j == 0 || (j >= delta && old_[Ahead(base, j)]))
  }

  lemma SlideMirrors(old_: Row, bits: Row, base: Slot, id: u32, seen: set<u32>, delta: Slot)
    requires Mirrors(old_, base, id, seen)
    requires forall x :: x in seen ==> x <= id
    requires 0 < delta && id + delta < U32_SIZE
    requires Slid(old_, bits, Behind(base, delta), delta)
    ensures Mirrors(bits, Behind(base, delta), id + delta, seen + {id + delta})
  {
    var base' := Behind(base, delta);
    forall i: Slot | i < WindowExtent(id + delta)
      ensures bits[Ahead(base', i)] == (id + delta - i in seen + {id + delta})
    {
      if i >= delta {
        assert Ahead(base', i) == Ahead(base, i - delta);
      }
    }
  }

  lemma MarkSlides(bits: Row, base: Slot)
    ensures Slid(bits, bits[base := true], base, 1)
  {
    assert base == Ahead(base, 0);
  }

  lemma MarkMirrors(bits: Row, base: Slot, id: u32, seen: set<u32>, delta: Slot)
    requires Mirrors(bits, base, id, seen)
    requires delta < WindowExtent(id)
    ensures Mirrors(bits[Ahead(base, delta) := true], base, id, seen + {id - delta})
  {
  }

  method MarkAndClear(history: array<bv8>, base: Slot, delta: Slot, ghost before: Row)
    requires history.Length == REPLAY_WINDOW_BYTES && delta > 0
    requires before == Bits(history[..])
    modifies history
    ensures Slid(before, Bits(history[..]), base, delta)
  {
    SetBit(history, base);
    MarkSlides(before, base);
    var i := 1;
    while i < delta
      invariant 1 <= i <= delta
      invariant Slid(before, Bits(history[..]), base, i)
    {
      var newb := IndexAhead(base, i);
      ClearBit(history, newb);
      i := i + 1;
    }
  }

  class PktidRecv {
    const history: array<bv8>
    var base: Slot
    var extent: Extent
    var expire: ulong
    var id: u32
    var time: u32
    var idFloor: u32
    var maxBacktrack: nat
    /** `PKTID_RECV_EXPIRE`, 30 * HZ ticks for the HZ the kernel was built with. */
    const timeout: nat
    ghost var seen: set<u32>

    ghost predicate Valid()
      reads this, history
    {
      && history.Length == REPLAY_WINDOW_BYTES
      && extent == WindowExtent(id)
      && (forall x :: x in seen ==> 0 < x <= id)
      && Mirrors(Bits(history[..]), base, id, seen)
    }

    ghost function Contents(): Receiver
      reads this
    {
      Receiver(time, id, idFloor, expire, seen)
    }

    constructor (timeout: nat)
      ensures Valid() && fresh(history)
      ensures Contents() == FRESH_RECEIVER && this.timeout == timeout && maxBacktrack == 0
    {
      history := new bv8[REPLAY_WINDOW_BYTES](_ => 0);
      base, extent, expire, id, time, idFloor, maxBacktrack := 0, 0, 0, 0, 0, 0, 0;
      this.timeout := timeout;
      seen := {};
    }

    /** The next ID in sequence: one step back, the deque grows by one. */
    method AdvanceByOne(pktId: u32)
      requires Valid() && pktId == id + 1
      modifies this`base, this`extent, this`id, this`seen, history
      ensures Valid()
      ensures id == pktId && seen == old(seen) + {pktId}
    {
      ghost var before := Bits(history[..]);
      base := IndexBehind(base, 1);
      SetBit(history, base);
      MarkSlides(before, base);
      SlideMirrors(before, Bits(history[..]), old(base), id, seen, 1);
      if extent < REPLAY_WINDOW_SIZE {
        extent := extent + 1;
      }
      id := pktId;
      seen := seen + {pktId};
    }

    /** A jump within the window: the skipped positions are cleared one by one. */
    method AdvanceWithin(pktId: u32)
      requires Valid() && 1 < pktId - id < REPLAY_WINDOW_SIZE
      modifies this`base, this`extent, this`id, this`seen, history
      ensures Valid()
      ensures id == pktId && seen == old(seen) + {pktId}
    {
      var delta: Slot := pktId - id;
      base := IndexBehind(base, delta);
      extent := if extent + delta > REPLAY_WINDOW_SIZE then REPLAY_WINDOW_SIZE else extent + delta;
      MarkAndClear(history, base, delta, old(Bits(history[..])));
      SlideMirrors(old(Bits(history[..])), Bits(history[..]), old(base), id, seen, delta);
      id := pktId;
      seen := seen + {pktId};
    }

    /** A jump beyond the window: everything is forgotten except the new ID. */
    method AdvanceBeyond(pktId: u32)
      requires Valid() && pktId - id >= REPLAY_WINDOW_SIZE
      modifies this`base, this`extent, this`id, this`seen, history
      ensures Valid()
      ensures id == pktId && seen == old(seen) + {pktId}
    {
      base := 0;
      extent := REPLAY_WINDOW_SIZE;
      ClearAll(history);
      SetBit(history, 0);
      id := pktId;
      seen := seen + {pktId};
    }

    /** Any ID above the highest one so far. */
    method Advance(pktId: u32)
      requires Valid() && pktId > id
      modifies this`base, this`extent, this`id, this`seen, history
      ensures Valid()
      ensures id == pktId && seen == old(seen) + {pktId}
    {
      if pktId == (id + 1) % U32_SIZE {
        AdvanceByOne(pktId);
      } else if pktId - id < REPLAY_WINDOW_SIZE {
        AdvanceWithin(pktId);
      } else {
        AdvanceBeyond(pktId);
      }
    }

    /** An ID at or below the highest one: taken only when its bit is readable and clear. */
    method Backtrack(pktId: u32) returns (ok: bool)
      requires Valid() && 0 < pktId <= id
      modifies this`seen, history
      ensures Valid()
      ensures ok == BacktrackAllowed(old(Contents()), pktId, idFloor)
      ensures seen == old(seen) + (if ok then {pktId} else {})
      ensures !ok ==> history[..] == old(history[..])
    {
      var delta := id - pktId;
      if delta >= extent || pktId <= idFloor {
        return false;
      }
      var ri := IndexAhead(base, delta);
      var on := TestBit(history, ri);
      if on {
        return false;
      }
      SetBit(history, ri);
      MarkMirrors(old(Bits(history[..])), base, id, seen, delta);
      seen := seen + {pktId};
      return true;
    }

    method Receive(pktId: u32, pktTime: u32, now: ulong) returns (v: Verdict)
      requires Valid()
      modifies this, history
      ensures Valid()
      ensures v == Judge(old(Contents()), pktId, pktTime, now)
      ensures Contents() == ReplaySpec.Receive(old(Contents()), pktId, pktTime, now, timeout)
      ensures maxBacktrack ==
        if 0 < pktId <= old(id) && pktTime == old(time) && old(id) - pktId > old(maxBacktrack)
        then old(id) - pktId else old(maxBacktrack)
      ensures v != Accepted ==>
        base == old(base) && extent == old(extent) && history[..] == old(history[..])
    {
      if TimeAfterEq(now, expire) {
        idFloor := id;
      }
      if pktId == 0 {
        return Invalid;
      }
      if pktTime != time {
        if pktTime > time {
          base, extent, id, time, idFloor := 0, 0, 0, pktTime, 0;
          seen := {};
        } else {
          return TimeWentBack;
        }
      }
      if pktId > id {
        Advance(pktId);
      } else {
        var delta := id - pktId;
        if delta > maxBacktrack {
          maxBacktrack := delta;
        }
        var ok := Backtrack(pktId);
        if !ok {
          return Invalid;
        }
      }
      expire := (now + timeout) % LONG_SIZE;
      return Accepted;
    }
  }
}
