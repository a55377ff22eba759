// Fixed-width integer types of the forwarder and the uint64_t arithmetic its
// counters use (fwd/main.c). C's unsigned arithmetic wraps modulo 2^width; the
// model writes that wrap out explicitly.
module Types {

  type byte = x: int | 0 <= x < 0x100
  type u16 = x: int | 0 <= x < 0x1_0000
  type u32 = x: int | 0 <= x < 0x1_0000_0000

  const MOD64: int := 0x1_0000_0000_0000_0000
  type u64 = x: int | 0 <= x < 0x1_0000_0000_0000_0000

  /** The result of a parse that may fail (inet_aton's return value with its output). */
  datatype Option<+T> = None | Some(value: T)

  /** `a += b` on a uint64_t: the sum is reduced modulo 2^64. */
  function Add64(a: u64, b: u64): (r: u64)
    ensures a + b < MOD64 ==> r == a + b
    ensures MOD64 <= a + b ==> r == a + b - MOD64 && r < a
  {
    (a + b) % MOD64
  }

  /** `a - b` on two uint64_t values: the difference is reduced modulo 2^64. */
  function Sub64(a: u64, b: u64): (r: u64)
    ensures b <= a ==> r == a - b
    ensures a < b ==> r == a + MOD64 - b
  {
    (a - b) % MOD64
  }

  /** Subtracting the old value recovers what was added, even across a wrap. */
  lemma SubAfterAdd(a: u64, d: u64)
    ensures Sub64(Add64(a, d), a) == d
  {
  }

  /** Adding the difference back onto the old value gives the new value. */
  lemma AddAfterSub(a: u64, b: u64)
    ensures Add64(b, Sub64(a, b)) == a
  {
  }
}
