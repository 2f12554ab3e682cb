/** Types and helpers shared by the modules. */
module Wrappers {

  datatype Option<+T> = None | Some(value: T)

  datatype Result<+T, +E> = Ok(value: T) | Err(error: E)

  newtype Byte = x: int | 0 <= x < 256

  function Min(a: nat, b: nat): nat {
    if a < b then a else b
  }

  function Max(a: nat, b: nat): nat {
    if a < b then b else a
  }

  lemma Distribute(a: int, b: int, c: int)
    ensures (a + b) * c == a * c + b * c && a * c == c * a && b * c == c * b && (a + b) * c == c * (a + b)
    ensures b >= 0 && c >= 0 ==> b * c >= 0
  {}

  /** `s` with `piece` laid over it at `at`, growing as needed. */
  function Overlay<T>(s: seq<T>, at: nat, piece: seq<T>): seq<T>
    requires at <= |s|
  {
    s[..at] + piece + if at + |piece| <= |s| then s[at + |piece|..] else []
  }
}
