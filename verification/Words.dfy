/** Fixed-width words of the C code, with its wrapping operators written out. */
module Words {

  const U16_SIZE: int := 0x1_0000
  const U32_SIZE: int := 0x1_0000_0000
  const LONG_SIZE: int := 0x1_0000_0000_0000_0000

  type byte = x: int | 0 <= x < 0x100
  type u16 = x: int | 0 <= x < 0x1_0000
  type u32 = x: int | 0 <= x < 0x1_0000_0000
  /** `unsigned long` of a 64-bit kernel; the type of `jiffies`. */
  type ulong = x: int | 0 <= x < 0x1_0000_0000_0000_0000

  type Bytes = seq<byte>

  datatype Option<+T> = None | Some(value: T)

  /** The `jiffies` word shown while `ticks` have passed. */
  function Jiffies(ticks: nat): ulong {
    ticks % LONG_SIZE
  }

  /** `time_after_eq(a, b)`: the wrapped difference read as a signed number is not negative. */
  predicate TimeAfterEq(a: ulong, b: ulong) {
    (a - b) % LONG_SIZE < LONG_SIZE / 2
  }

  /** On ticks less than half a word apart the wrapping comparison is the real one. */
  lemma TimeAfterEqIsOrder(a: nat, b: nat)
    requires -(LONG_SIZE / 2) <= a - b < LONG_SIZE / 2
    ensures TimeAfterEq(Jiffies(a), Jiffies(b)) <==> a >= b
  {
    assert (a % LONG_SIZE - b % LONG_SIZE) % LONG_SIZE == (a - b) % LONG_SIZE;
  }

  lemma SeqAssociates<T>(a: seq<T>, b: seq<T>, c: seq<T>)
    ensures a + b + c == a + (b + c)
  {
  }
}
