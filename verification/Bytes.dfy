/** Bytes, byte strings and what is said about them in every component. */
module Bytes {
  type byte = x: int | 0 <= x < 256
  type bytes = seq<byte>
  type uint32 = x: int | 0 <= x < 0x1_0000_0000

  datatype Option<+T> = None | Some(value: T)

  /** s stands in t at p. */
  ghost predicate Sits(t: bytes, p: nat, s: bytes) {
    && p + |s| <= |t|
    && forall i | 0 <= i < |s| :: t[p + i] == s[i]
  }

  /** Parts of a text, one after the other. */
  function Join(parts: seq<bytes>): bytes {
    if parts == [] then [] else Join(parts[..|parts| - 1]) + parts[|parts| - 1]
  }
}
