/** Values main.go takes from Go itself: bytes, optional values, the
    zero-filled slices `make` returns and repeated sequences. */
module Prelude {

  /** Go's `byte` (uint8). */
  newtype byte = x: int | 0 <= x < 256

  datatype Option<T> = None | Some(value: T)

  function Min(a: int, b: int): (m: int)
    ensures m <= a && m <= b && (m == a || m == b)
  {
    if a <= b then a else b
  }

  /** The contents of `make([]byte, n)`: n zero bytes. */
  function Zeros(n: nat): (z: seq<byte>)
    ensures |z| == n
    ensures forall i :: 0 <= i < n ==> z[i] == 0
  {
    seq(n, _ => 0)
  }

  /** `k` copies of the value `v`. */
  function Repeat<T>(v: T, k: nat): (r: seq<T>)
    ensures |r| == k
    ensures forall i :: 0 <= i < k ==> r[i] == v
  {
    seq(k, _ => v)
  }

  /** The concatenation of `n` copies of `s`. */
  function RepeatSeq<T>(s: seq<T>, n: nat): seq<T>
  {
    if n == 0 then [] else RepeatSeq(s, n - 1) + s
  }

  /** Concatenation of a sequence of byte strings. */
  function Flatten(ss: seq<seq<byte>>): seq<byte>
  {
    if ss == [] then [] else ss[0] + Flatten(ss[1..])
  }

  lemma MulSucc(a: nat, b: nat)
    ensures (a + 1) * b == a * b + b
  {
  }
}
