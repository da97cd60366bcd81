/** Small vocabulary shared by every part of the model. */
module Core {

  /** A C `unsigned char`. */
  type byte = x: int | 0 <= x < 256

  /** A C `int`: the verifier checks every operation on it for signed overflow. */
  newtype int32 = x: int | -0x8000_0000 <= x < 0x8000_0000

  datatype Option<+T> = None | Some(value: T)

  function Min(a: int, b: int): int {
    if a <= b then a else b
  }

  function Max(a: int, b: int): int {
    if a >= b then a else b
  }

  /** The last `n` elements of `s`. */
  function Last<T>(s: seq<T>, n: nat): (r: seq<T>)
    requires n <= |s|
  {
    s[|s| - n..]
  }

  function Pow2(k: nat): (r: nat)
    ensures r > 0
  {
    if k == 0 then 1 else 2 * Pow2(k - 1)
  }
}
