/** The replay check as it looks from outside: a set of accepted packet IDs, with no bitmap. */
module ReplaySpec {
  import opened Words

  const REPLAY_WINDOW_SIZE: int := 2048

  datatype Verdict = Accepted | Invalid | TimeWentBack

  /** What one receiver remembers; `seen` holds the IDs accepted at time stamp `time`. */
  datatype Receiver = Receiver(time: u32, id: u32, floor: u32, expire: ulong, seen: set<u32>)

  const FRESH_RECEIVER := Receiver(0, 0, 0, 0, {})

  /** The floor in force once a call at `now` has noticed a lapsed deadline. */
  function EffectiveFloor(s: Receiver, now: ulong): u32 {
    if TimeAfterEq(now, s.expire) then s.id else s.floor
  }

  /** An ID at or below the highest one is taken when recent, above the floor and unseen. */
  predicate BacktrackAllowed(s: Receiver, id: u32, floor: u32) {
    s.id - id < REPLAY_WINDOW_SIZE && id > floor && id !in s.seen
  }

  function Judge(s: Receiver, id: u32, time: u32, now: ulong): Verdict {
    if id == 0 then Invalid
    else if time < s.time then TimeWentBack
    else if time > s.time || id > s.id || BacktrackAllowed(s, id, EffectiveFloor(s, now)) then Accepted
    else Invalid
  }

  function Receive(s: Receiver, id: u32, time: u32, now: ulong, timeout: nat): Receiver {
    var floor := EffectiveFloor(s, now);
    var expire := (now + timeout) % LONG_SIZE;
    if Judge(s, id, time, now) != Accepted then s.(floor := floor)
    else if time > s.time then Receiver(time, id, 0, expire, {id})
    else Receiver(time, if id > s.id then id else s.id, floor, expire, s.seen + {id})
  }
}
