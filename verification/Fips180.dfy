/** The Secure Hash Algorithm as FIPS PUB 180-1 states it. */
module Fips180 {
  import opened Bytes
  import opened BlockHashing

  type word = bv32

  /** Section 3: the circular left shift by `n` positions. */
  function S(n: nat, x: word): word
    requires 0 < n < 32
  {
    (x << n) | (x >> (32 - n))
  }

  /** Section 5: the functions used. */
  function F(t: nat, b: word, c: word, d: word): word {
    if t < 20 then (b & c) | ((!b) & d)
    else if t < 40 then b ^ c ^ d
    else if t < 60 then (b & c) | (b & d) | (c & d)
    else b ^ c ^ d
  }

  /** Section 6: the constants used. */
  function K(t: nat): word {
    if t < 20 then 0x5A827999
    else if t < 40 then 0x6ED9EBA1
    else if t < 60 then 0x8F1BBCDC
    else 0xCA62C1D6
  }

  /** Section 2: addition of words modulo 2^32. */
  function Add(x: word, y: word): word { x + y }

  function Xor4(a: word, b: word, c: word, d: word): word { a ^ b ^ c ^ d }

  function Sum5(a: word, b: word, c: word, d: word, e: word): word { a + b + c + d + e }

  datatype Buffer = Buffer(a: word, b: word, c: word, d: word, e: word)

  /** Section 7: the initial buffer. */
  const H0 := Buffer(0x67452301, 0xEFCDAB89, 0x98BADCFE, 0x10325476, 0xC3D2E1F0)

  function WordAt(m: seq<byte>, i: nat): word
    requires i + 4 <= |m|
  {
    (m[i] as bv32 << 24) | (m[i + 1] as bv32 << 16) | (m[i + 2] as bv32 << 8) | m[i + 3] as bv32
  }

  /** Section 7, steps a and b: the 80 words of a block. */
  function W(m: seq<byte>, t: nat): word
    requires |m| == 64
  {
    if t < 16 then WordAt(m, 4 * t)
    else S(1, Xor4(W(m, t - 3), W(m, t - 8), W(m, t - 14), W(m, t - 16)))
  }

  function Words(m: seq<byte>): (w: seq<word>)
    requires |m| == 64
    ensures |w| == 80
  {
    seq(80, i requires 0 <= i < 80 => W(m, i))
  }

  lemma {:induction false} WordsStep(m: seq<byte>, t: nat)
    requires |m| == 64 && 16 <= t < 80
    ensures var w := Words(m); w[t] == S(1, Xor4(w[t - 3], w[t - 8], w[t - 14], w[t - 16]))
  {
  }

  /** Section 7, step d. */
  function Round(w: word, t: nat, r: Buffer): Buffer {
    Buffer(Sum5(S(5, r.a), F(t, r.b, r.c, r.d), r.e, w, K(t)), r.a, S(30, r.b), r.c, r.d)
  }

  /** One round for each word, in order. */
  function Rounds(w: seq<word>, h: Buffer): Buffer {
    if w == [] then h else Round(w[|w| - 1], |w| - 1, Rounds(w[..|w| - 1], h))
  }

  function Plus(h: Buffer, r: Buffer): Buffer {
    Buffer(Add(h.a, r.a), Add(h.b, r.b), Add(h.c, r.c), Add(h.d, r.d), Add(h.e, r.e))
  }

  /** Section 7, steps c to e, for one block. */
  function Compress(h: Buffer, m: seq<byte>): Buffer
    requires |m| == 64
  {
    Plus(h, Rounds(Words(m), h))
  }

  /** The compression function on any octets, so that it can be iterated as a value. */
  const STEP: (Buffer, seq<byte>) -> Buffer := (h, m) => if |m| == 64 then Compress(h, m) else h

  /** The buffer after the first `n` blocks of `m`. */
  function Blocks(m: seq<byte>, n: nat): Buffer
    requires 64 * n <= |m|
  {
    Fold(STEP, H0, m, n)
  }

  /** The message digest: section 7 over the message padded as section 4 says. */
  function Sha1(m: seq<byte>): Buffer {
    Digest(STEP, H0, m)
  }
}
