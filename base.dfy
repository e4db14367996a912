/** Bytes as the reader and the card exchange them, and the small helpers over them. */
module Base {

  /** An unsigned 8-bit value (`uint8_t` / `byte` in the driver). */
  type byte = b: int | 0 <= b < 256

  datatype Option<+T> = None | Some(value: T)

  /** `n` zero bytes. */
  function Zeros(n: nat): (z: seq<byte>)
    ensures |z| == n
    ensures forall i :: 0 <= i < n ==> z[i] == 0
  {
    seq(n, _ => 0)
  }

  /** What a fixed-length read of `n` bytes leaves in a buffer when the reader
      answers `s`: its first `n` bytes, zero-padded when `s` is shorter. */
  function Fit(s: seq<byte>, n: nat): (r: seq<byte>)
    ensures |r| == n
    ensures forall i :: 0 <= i < n ==> r[i] == (if i < |s| then s[i] else 0)
  {
    if |s| >= n then s[..n] else s + Zeros(n - |s|)
  }

  /** C `strlen`: the number of bytes before the first zero byte, or `|s|` when
      the sequence holds no zero byte. */
  function CStrlen(s: seq<byte>): (n: nat)
    ensures n <= |s|
    ensures forall i :: 0 <= i < n ==> s[i] != 0
    ensures n < |s| ==> s[n] == 0
  {
    if s == [] || s[0] == 0 then 0 else 1 + CStrlen(s[1..])
  }

  /** `strlen` stored in a `uint8_t`: the string's length modulo 256, so a string
      of 256 bytes or more looks shorter than it is. Either way the chunkers see
      only bytes before the terminator. */
  function Strlen8(s: seq<byte>): (n: byte)
    ensures n as nat <= CStrlen(s) <= |s|
    ensures CStrlen(s) < 256 ==> n as nat == CStrlen(s)
  {
    CStrlen(s) % 256
  }

  /** Whatever follows the terminator is never part of the string. */
  lemma {:induction false} CStrlenStops(s: seq<byte>, rest: seq<byte>)
    requires forall i :: 0 <= i < |s| ==> s[i] != 0
    ensures CStrlen(s + [0] + rest) == |s|
  {
    if s != [] {
      assert (s + [0] + rest)[1..] == s[1..] + [0] + rest;
      CStrlenStops(s[1..], rest);
    }
  }
}
