/** Byte-level vocabulary shared by the sockets, core-dump and LED models. */
module Bytes {

  /** An 8-bit unsigned value (`uint8_t`, and `char` where the firmware stores bytes in it). */
  newtype byte = x: int | 0 <= x < 0x100

  /** A value that may be absent: a NULL pointer, a missing partition, a failed foreign call. */
  datatype Option<T> = None | Some(value: T)

  /** `n` zero bytes: what `calloc` hands back. */
  function Zeros(n: nat): (z: seq<byte>)
    ensures |z| == n
    ensures forall i :: 0 <= i < n ==> z[i] == 0
  {
    seq(n, _ => 0)
  }

  /**
   * `s` with `data` copied over it starting at index `at`: the effect of
   * `memcpy(s + at, data, |data|)` on the destination's contents.
   */
  function Overwrite(s: seq<byte>, at: nat, data: seq<byte>): (r: seq<byte>)
    requires at + |data| <= |s|
    ensures |r| == |s|
    ensures forall i :: 0 <= i < |data| ==> r[at + i] == data[i]
    ensures forall i :: 0 <= i < |s| && !(at <= i < at + |data|) ==> r[i] == s[i]
  {
    s[..at] + data + s[at + |data|..]
  }
}
