/**
  Definitions shared by the TCP and the network modules: the 32-bit unsigned
  integers of the ESP32, optional values, and two small facts about
  sequences and numbers.
 */
module Common {

  const TWO_32: int := 0x1_0000_0000

  /** An `unsigned long` (or `u32_t`) value on the ESP32. */
  type uint32 = x: int | 0 <= x < 0x1_0000_0000

  datatype Option<T> = None | Some(value: T)

  function Min(a: nat, b: nat): nat
  {
    if a < b then a else b
  }

  lemma AppendAssociative<T>(a: seq<T>, b: seq<T>, c: seq<T>)
    ensures a + b + c == a + (b + c)
  {
  }
}
