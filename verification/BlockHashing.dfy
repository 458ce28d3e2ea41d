/** Iterated hashing for any compression function: whole blocks, padding, and what is left over. */
module BlockHashing {
  import opened Bytes

  /** The state after the first `n` 64-octet blocks of `m`. */
  function Fold<H>(f: (H, seq<byte>) -> H, h: H, m: seq<byte>, n: nat): H
    requires 64 * n <= |m|
  {
    if n == 0 then h else f(Fold(f, h, m, n - 1), m[64 * (n - 1)..64 * n])
  }

  lemma {:induction false} FoldPrefix<H>(f: (H, seq<byte>) -> H, h: H, m: seq<byte>, more: seq<byte>, n: nat)
    requires 64 * n <= |m|
    ensures Fold(f, h, m + more, n) == Fold(f, h, m, n)
  {
    if n > 0 {
      FoldPrefix(f, h, m, more, n - 1);
      assert (m + more)[64 * (n - 1)..64 * n] == m[64 * (n - 1)..64 * n];
    }
  }

  /** A 64-bit number as octets, most significant first. */
  function Octets64(v: nat): (r: seq<byte>)
    ensures |r| == 8
  {
    seq(8, i requires 0 <= i < 8 => Octet(v, 7 - i))
  }

  /** Octet `i` of `v`, counted from the least significant. */
  function Octet(v: nat, i: nat): byte
    requires i < 8
  {
    if i == 0 then v % 256
    else if i == 1 then v / 0x100 % 256
    else if i == 2 then v / 0x1_0000 % 256
    else if i == 3 then v / 0x100_0000 % 256
    else if i == 4 then v / 0x1_0000_0000 % 256
    else if i == 5 then v / 0x100_0000_0000 % 256
    else if i == 6 then v / 0x1_0000_0000_0000 % 256
    else v / 0x100_0000_0000_0000 % 256
  }

  /** Zero octets so that one more octet before them and eight after them fill up a block. */
  function Fill(n: nat): nat {
    (119 - n % 64) % 64
  }

  /** Section 4: a one bit, zeros, and the length in bits. */
  function Pad(m: seq<byte>): (r: seq<byte>)
    ensures |r| == |m| + 9 + Fill(|m|)
  {
    m + [0x80] + Zeros(Fill(|m|)) + Octets64(8 * |m|)
  }

  lemma {:induction false} PadFillsBlocks(m: seq<byte>)
    ensures |Pad(m)| % 64 == 0
  {
  }

  /** The state after all blocks of the padded message. */
  function Digest<H>(f: (H, seq<byte>) -> H, h: H, m: seq<byte>): H {
    PadFillsBlocks(m);
    Fold(f, h, Pad(m), |Pad(m)| / 64)
  }

  /** What is left of `m` after its whole blocks. */
  function Tail(m: seq<byte>): (r: seq<byte>)
    ensures |r| == |m| % 64
  {
    m[|m| / 64 * 64..]
  }

  lemma {:induction false} WholeBlocks<H>(f: (H, seq<byte>) -> H, h: H, m: seq<byte>, last: seq<byte>)
    requires Pad(m) == m[..|m| / 64 * 64] + last
    ensures 64 * (|m| / 64) <= |Pad(m)| && Fold(f, h, Pad(m), |m| / 64) == Fold(f, h, m, |m| / 64)
  {
    var q := |m| / 64;
    var whole := m[..q * 64];
    FoldPrefix(f, h, whole, last, q);
    assert m == whole + m[q * 64..];
    FoldPrefix(f, h, whole, m[q * 64..], q);
  }

  lemma {:induction false} TailIs(m: seq<byte>, whole: seq<byte>, part: seq<byte>)
    requires m == whole + part && |part| == |m| % 64
    ensures Tail(m) == part
  {
    assert |whole| == |m| / 64 * 64;
  }

  lemma {:induction false} Split(m: seq<byte>)
    ensures m == m[..|m| / 64 * 64] + Tail(m)
  {
  }

  lemma {:induction false} FillShort(n: nat)
    requires n % 64 <= 55
    ensures Fill(n) == 55 - n % 64
  {
  }

  lemma {:induction false} FillLong(n: nat)
    requires n % 64 > 55
    ensures Fill(n) == 63 - n % 64 + 56
  {
  }

  lemma {:induction false} PadIsShort(m: seq<byte>, last: seq<byte>)
    requires |m| % 64 <= 55
    requires last == Tail(m) + [0x80] + Zeros(55 - |m| % 64) + Octets64(8 * |m|)
    ensures Pad(m) == m[..|m| / 64 * 64] + last && |last| == 64
  {
    FillShort(|m|);
    Split(m);
    var whole, tail, z, o := m[..|m| / 64 * 64], Tail(m), Zeros(55 - |m| % 64), Octets64(8 * |m|);
    assert (whole + tail) + [0x80] + z + o == whole + (tail + [0x80] + z + o);
  }

  lemma {:induction false} PadIsLong(m: seq<byte>, first: seq<byte>, second: seq<byte>)
    requires |m| % 64 > 55
    requires first == Tail(m) + [0x80] + Zeros(63 - |m| % 64) && second == Zeros(56) + Octets64(8 * |m|)
    ensures Pad(m) == m[..|m| / 64 * 64] + (first + second) && |first| == 64 && |second| == 64
  {
    FillLong(|m|);
    Split(m);
    var whole, tail, z, y, o := m[..|m| / 64 * 64], Tail(m), Zeros(63 - |m| % 64), Zeros(56), Octets64(8 * |m|);
    assert Zeros(Fill(|m|)) == z + y;
    assert (whole + tail) + [0x80] + (z + y) + o == whole + ((tail + [0x80] + z) + (y + o));
  }

  lemma {:induction false} FoldStep<H>(f: (H, seq<byte>) -> H, h: H, p: seq<byte>, n: nat, whole: seq<byte>,
                                       b: seq<byte>, more: seq<byte>)
    requires p == whole + b + more && |whole| == 64 * n && |b| == 64
    ensures Fold(f, h, p, n + 1) == f(Fold(f, h, p, n), b)
  {
    assert p[64 * n..64 * (n + 1)] == b;
  }

  /** The octet that completes a block. */
  lemma {:induction false} AbsorbFull<H>(f: (H, seq<byte>) -> H, h: H, m: seq<byte>, whole: seq<byte>,
                                         part: seq<byte>, x: byte)
    requires m == whole + part && |part| == |m| % 64 == 63
    ensures |m + [x]| % 64 == 0
    ensures Fold(f, h, m + [x], |m + [x]| / 64) == f(Fold(f, h, m, |m| / 64), part + [x])
  {
    var q := |m| / 64;
    FoldPrefix(f, h, m, [x], q);
    assert m + [x] == whole + (part + [x]) + [];
    FoldStep(f, h, m + [x], q, whole, part + [x], []);
  }

  /** An octet that does not. */
  lemma {:induction false} AbsorbPart<H>(f: (H, seq<byte>) -> H, h: H, m: seq<byte>, whole: seq<byte>,
                                         part: seq<byte>, x: byte)
    requires m == whole + part && |part| == |m| % 64 < 63
    ensures |m + [x]| % 64 == |part| + 1
    ensures Fold(f, h, m + [x], |m + [x]| / 64) == Fold(f, h, m, |m| / 64)
    ensures (m + [x])[..|m + [x]| - (|part| + 1)] + (part + [x]) == m + [x]
  {
    FoldPrefix(f, h, m, [x], |m| / 64);
    assert m + [x] == whole + (part + [x]);
    assert (m + [x])[..|whole|] == whole;
  }

  lemma {:induction false} DigestIs<H>(f: (H, seq<byte>) -> H, h: H, m: seq<byte>, n: nat)
    requires |Pad(m)| == 64 * n
    ensures Digest(f, h, m) == Fold(f, h, Pad(m), n)
  {
  }

  /** Up to 55 octets left over: the padding fits into the same block. */
  lemma {:induction false} PadShort<H>(f: (H, seq<byte>) -> H, h: H, m: seq<byte>, last: seq<byte>)
    requires |m| % 64 <= 55
    requires last == Tail(m) + [0x80] + Zeros(55 - |m| % 64) + Octets64(8 * |m|)
    ensures |last| == 64 && Digest(f, h, m) == f(Fold(f, h, m, |m| / 64), last)
  {
    var q := |m| / 64;
    PadIsShort(m, last);
    WholeBlocks(f, h, m, last);
    assert m[..q * 64] + last == m[..q * 64] + last + [];
    FoldStep(f, h, Pad(m), q, m[..q * 64], last, []);
    DigestIs(f, h, m, q + 1);
  }

  /** More than that: the length goes into a block of its own. */
  lemma {:induction false} PadLong<H>(f: (H, seq<byte>) -> H, h: H, m: seq<byte>, first: seq<byte>, second: seq<byte>)
    requires |m| % 64 > 55
    requires first == Tail(m) + [0x80] + Zeros(63 - |m| % 64) && second == Zeros(56) + Octets64(8 * |m|)
    ensures |first| == 64 && |second| == 64 && Digest(f, h, m) == f(f(Fold(f, h, m, |m| / 64), first), second)
  {
    var q, whole := |m| / 64, m[..|m| / 64 * 64];
    PadIsLong(m, first, second);
    WholeBlocks(f, h, m, first + second);
    assert whole + (first + second) == whole + first + second;
    FoldStep(f, h, Pad(m), q, whole, first, second);
    assert whole + first + second == (whole + first) + second + [];
    FoldStep(f, h, Pad(m), q + 1, whole + first, second, []);
    DigestIs(f, h, m, q + 2);
  }

  lemma {:induction false} HighOctets(high: nat, low: nat)
    requires high < 0x1_0000_0000 && low < 0x1_0000_0000
    ensures var v := high * 0x1_0000_0000 + low;
            && v / 0x100_0000_0000_0000 == high / 0x100_0000 && v / 0x1_0000_0000_0000 == high / 0x1_0000
            && v / 0x100_0000_0000 == high / 0x100 && v / 0x1_0000_0000 == high
  {
  }

  lemma {:induction false} LowOctets(high: nat, low: nat)
    ensures var v := high * 0x1_0000_0000 + low;
            && v / 0x100_0000 == high * 0x100 + low / 0x100_0000 && v / 0x1_0000 == high * 0x1_0000 + low / 0x1_0000
            && v / 0x100 == high * 0x100_0000 + low / 0x100
  {
  }

  lemma {:induction false} Mod256(k: int, x: int)
    ensures (k * 256 + x) % 256 == x % 256
  {
  }

  /** The length octets from a counter kept in two 32-bit halves. */
  lemma {:induction false} OctetsFromHalves(high: nat, low: nat)
    requires high < 0x1_0000_0000 && low < 0x1_0000_0000
    ensures Octets64(high * 0x1_0000_0000 + low) ==
            [high / 0x100_0000 % 256, high / 0x1_0000 % 256, high / 0x100 % 256, high % 256,
             low / 0x100_0000 % 256, low / 0x1_0000 % 256, low / 0x100 % 256, low % 256]
  {
    HighOctets(high, low);
    LowOctets(high, low);
    Mod256(high, low / 0x100_0000);
    Mod256(high * 0x100, low / 0x1_0000);
    Mod256(high * 0x1_0000, low / 0x100);
    Mod256(high * 0x100_0000, low);
    var v := high * 0x1_0000_0000 + low;
    assert Octet(v, 7) == high / 0x100_0000 % 256 && Octet(v, 6) == high / 0x1_0000 % 256;
    assert Octet(v, 5) == high / 0x100 % 256 && Octet(v, 4) == high % 256;
    assert Octet(v, 3) == low / 0x100_0000 % 256 && Octet(v, 2) == low / 0x1_0000 % 256;
    assert Octet(v, 1) == low / 0x100 % 256 && Octet(v, 0) == low % 256;
  }
}
