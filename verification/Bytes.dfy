/** Octets, network addresses and the in-place writes that packet code is made of. */
module Bytes {

  type byte = x: int | 0 <= x < 256

  /** An IPv4 address and an Ethernet address, as the octets that travel on the wire. */
  type Ip = b: seq<byte> | |b| == 4 witness [0, 0, 0, 0]
  type Mac = b: seq<byte> | |b| == 6 witness [0, 0, 0, 0, 0, 0]

  const ZERO_IP: Ip := [0, 0, 0, 0]

  function Zeros(n: nat): (z: seq<byte>)
    ensures |z| == n && forall i :: 0 <= i < n ==> z[i] == 0
  {
    seq(n, _ => 0)
  }

  /** `memcpy(f + off, v, |v|)` as a value. */
  function Splice(f: seq<byte>, off: nat, v: seq<byte>): (r: seq<byte>)
    requires off + |v| <= |f|
    ensures |r| == |f|
    ensures forall i :: off <= i < off + |v| ==> r[i] == v[i - off]
    ensures forall i :: 0 <= i < |f| && !(off <= i < off + |v|) ==> r[i] == f[i]
  {
    f[..off] + v + f[off + |v|..]
  }

  /** The 16-bit value of an octet pair in network byte order. */
  function Word(hi: byte, lo: byte): (w: int)
    ensures 0 <= w < 0x10000
  {
    hi as int * 256 + lo as int
  }

  function Put16(v: int): (r: seq<byte>)
    requires 0 <= v < 0x10000
    ensures |r| == 2 && Word(r[0], r[1]) == v
  {
    [v / 256, v % 256]
  }

  function Get16(f: seq<byte>, off: nat): (v: int)
    requires off + 2 <= |f|
    ensures 0 <= v < 0x10000
  {
    Word(f[off], f[off + 1])
  }

  datatype Option<+T> = None | Some(value: T)
}
