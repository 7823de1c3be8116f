/**
 * Bytes and control characters shared by the logger's modules, and a
 * first-occurrence search used by the log resume scan and the sentence framer.
 */
module Bytes {

  type byte = bv8

  /** ASCII End of Text: the log's end-of-data sentinel. */
  const ETX: byte := 0x03
  /** ASCII carriage return. */
  const CR: byte := 0x0D
  /** ASCII line feed. */
  const LF: byte := 0x0A
  /** The string terminator. */
  const NUL: byte := 0x00

  datatype Option<T> = None | Some(value: T)

  /** The index of the first `x` in `s`, or `|s|` when `s` holds no `x`. */
  function IndexOf(s: seq<byte>, x: byte): (r: nat)
    ensures r <= |s|
    ensures r < |s| ==> s[r] == x
    ensures forall j :: 0 <= j < r ==> s[j] != x
    ensures r == |s| <==> x !in s
  {
    if s == [] then 0
    else if s[0] == x then 0
    else 1 + IndexOf(s[1..], x)
  }

  /** A first-occurrence index is unique: any index meeting both conditions is IndexOf's. */
  lemma IndexOfUnique(s: seq<byte>, x: byte, k: nat)
    requires k < |s| && s[k] == x
    requires forall j :: 0 <= j < k ==> s[j] != x
    ensures IndexOf(s, x) == k
  {
  }

  /** When the first `n` elements are not `x`, the first `x` is at index `n` or later. */
  lemma IndexOfAtLeast(s: seq<byte>, x: byte, n: nat)
    requires n <= |s|
    requires forall j :: 0 <= j < n ==> s[j] != x
    ensures n <= IndexOf(s, x)
  {
  }
}
