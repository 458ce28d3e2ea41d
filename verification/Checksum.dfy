/** The Internet checksum: `cksum` of sr_utils.c against RFC 1071. */
module Checksum {
  import opened Bytes

  /** Sum of the big-endian 16-bit words of `d`; an odd last octet is padded with zero. */
  function RawSum(d: seq<byte>): (s: nat)
    decreases |d|
  {
    if |d| == 0 then 0
    else if |d| == 1 then Word(d[0], 0)
    else Word(d[0], d[1]) + RawSum(d[2..])
  }

  /** RFC 1071 section 1: 16-bit addition with end-around carry. */
  function OnesAdd(a: int, b: int): (r: int)
    requires 0 <= a <= 0xffff && 0 <= b <= 0xffff
    ensures 0 <= r <= 0xffff
  {
    if a + b > 0xffff then a + b - 0xffff else a + b
  }

  /** RFC 1071 section 1: the ones' complement sum of the words of `d`. */
  function OnesSum(d: seq<byte>): (s: int)
    ensures 0 <= s <= 0xffff
    decreases |d|
  {
    if |d| == 0 then 0
    else if |d| == 1 then Word(d[0], 0)
    else OnesAdd(Word(d[0], d[1]), OnesSum(d[2..]))
  }

  /** RFC 1071: the checksum is the ones' complement of the ones' complement sum. */
  function Rfc1071(d: seq<byte>): (c: int)
    ensures 0 <= c <= 0xffff
  {
    0xffff - OnesSum(d)
  }

  /** RFC 1071's checksum in the form the router transmits: 0 is replaced by 0xffff. */
  function NonZeroRfc1071(d: seq<byte>): (c: int)
  {
    if Rfc1071(d) == 0 then 0xffff else Rfc1071(d)
  }

  /** What `cksum` returns, as the value of the octet pair it is stored into. */
  function CksumValue(d: seq<byte>): (c: int)
    ensures 1 <= c <= 0xffff
  {
    65535 - RawSum(d) % 0x1_0000_0000 % 65535
  }

  // ----- the loops of `cksum` -----

  lemma {:induction false} ModStep(x: int, q: int)
    ensures (x + 65535 * q) % 65535 == x % 65535
  {
  }

  lemma {:induction false} FoldPreservesMod(s: nat)
    requires s > 0xffff
    ensures (s / 65536 + s % 65536) % 65535 == s % 65535
    ensures 0 < s / 65536 + s % 65536 < s
  {
    ModStep(s / 65536 + s % 65536, s / 65536);
  }

  lemma {:induction false} ResidueOfOnesSum(ones: int, s: int)
    requires 0 <= ones <= 65535 && 0 <= s
    requires ones % 65535 == s % 65535
    ensures (if ones == 65535 then 65535 else 65535 - ones) == 65535 - s % 65535
  {
  }

  /** The folding loop: the 16-bit residue, with 0xffff standing for a nonzero multiple of 65535. */
  method Fold(total: nat) returns (sum: nat)
    ensures sum <= 0xffff
    ensures sum % 65535 == total % 65535
    ensures sum == 0 <==> total == 0
  {
    sum := total;
    while sum > 0xffff
      invariant sum % 65535 == total % 65535
      invariant sum == 0 <==> total == 0
    {
      FoldPreservesMod(sum);
      sum := sum / 65536 + sum % 65536;
    }
  }

  /** `sum += w` on a uint32_t. */
  method Add32(sum: nat, w: nat) returns (r: nat, ghost carry: nat)
    ensures r < 0x1_0000_0000 && sum + w == carry * 0x1_0000_0000 + r
  {
    r, carry := (sum + w) % 0x1_0000_0000, (sum + w) / 0x1_0000_0000;
  }

  /** `htons(~sum)` of a folded sum, with 0 turned into 0xffff. */
  method Complement(sum: nat, ghost raw: nat, ghost carry: nat) returns (c: int)
    requires sum < 0x1_0000_0000 && raw == carry * 0x1_0000_0000 + sum
    ensures c == 65535 - raw % 0x1_0000_0000 % 65535
  {
    assert raw % 0x1_0000_0000 == sum;
    var folded := Fold(sum);
    ResidueOfOnesSum(folded, sum);
    c := 0xffff - folded;
    if c == 0 {
      c := 0xffff;
    }
  }

  /** `cksum`: a wrapping 32-bit sum, folded to 16 bits and complemented. */
  method Cksum(data: seq<byte>) returns (c: int)
    ensures c == CksumValue(data)
  {
    var sum: nat, i: nat := 0, 0;
    ghost var carry: nat, carried: nat := 0, 0;
    while i + 2 <= |data|
      invariant i <= |data| && sum < 0x1_0000_0000
      invariant RawSum(data) == carry * 0x1_0000_0000 + sum + RawSum(data[i..])
    {
      assert data[i..][2..] == data[i + 2..];
      sum, carried := Add32(sum, Word(data[i], data[i + 1]));
      carry := carry + carried;
      i := i + 2;
    }
    if i < |data| {
      sum, carried := Add32(sum, Word(data[i], 0));
      carry := carry + carried;
    }
    c := Complement(sum, RawSum(data), carry);
  }

  // ----- agreement with RFC 1071 -----

  lemma {:induction false} OnesAddMod(a: int, b: int, s: int)
    requires 0 <= a <= 0xffff && 0 <= b <= 0xffff && 0 <= s
    requires b % 65535 == s % 65535 && (b == 0 <==> s == 0)
    ensures OnesAdd(a, b) % 65535 == (a + s) % 65535
    ensures OnesAdd(a, b) == 0 <==> a + s == 0
  {
    var k := (s - b) / 65535;
    assert s == b + 65535 * k;
    ModStep(a + b, k);
    ModStep(a + b, -1);
  }

  /** The end-around carry computes the residue mod 65535, and 0 only for all-zero data. */
  lemma {:induction false} OnesSumIsResidue(d: seq<byte>)
    ensures OnesSum(d) % 65535 == RawSum(d) % 65535
    ensures OnesSum(d) == 0 <==> RawSum(d) == 0
    decreases |d|
  {
    if |d| >= 2 {
      OnesSumIsResidue(d[2..]);
      OnesAddMod(Word(d[0], d[1]), OnesSum(d[2..]), RawSum(d[2..]));
    }
  }

  lemma {:induction false} RawSumBound(d: seq<byte>, words: nat)
    requires |d| <= 2 * words
    ensures RawSum(d) <= 65535 * words
    decreases words
  {
    if |d| >= 2 { RawSumBound(d[2..], words - 1); }
  }

  /** 65537 words of 65535 are 2^32 - 1: no buffer of up to 131074 octets overflows the sum. */
  lemma {:induction false} NoOverflow(d: seq<byte>)
    requires |d| <= 131074
    ensures RawSum(d) < 0x1_0000_0000
  {
    RawSumBound(d, 65537);
  }

  /** Reducing mod 2^32 first changes the residue mod 65535 exactly when something was cut off. */
  lemma {:induction false} WrapArithmetic(s: int)
    requires 0 <= s < 65535 * 0x1_0000_0000
    ensures s % 0x1_0000_0000 % 65535 == s % 65535 <==> s < 0x1_0000_0000
  {
    var q, r := s / 0x1_0000_0000, s % 0x1_0000_0000;
    assert s == r + q + 65535 * (65537 * q);
    ModStep(r + q, 65537 * q);
    assert (r + q) % 65535 == r % 65535 <==> q == 0;
  }

  /** For every length a C `int` can hold, `cksum` is the RFC 1071 checksum with 0 replaced by
      0xffff if and only if the 32-bit sum does not overflow. */
  lemma {:induction false} CksumIsRfc1071(d: seq<byte>)
    requires |d| < 0x8000_0000
    ensures CksumValue(d) == NonZeroRfc1071(d) <==> RawSum(d) < 0x1_0000_0000
    ensures |d| <= 131074 ==> CksumValue(d) == NonZeroRfc1071(d)
  {
    OnesSumIsResidue(d);
    RawSumBound(d, 0x4000_0000);
    WrapArithmetic(RawSum(d));
    ResidueOfOnesSum(OnesSum(d), RawSum(d));
    if |d| <= 131074 { NoOverflow(d); }
  }

  /** Within the bound, both sides of the receiver's test are residues mod 65535. */
  lemma {:induction false} ResidueForms(d: seq<byte>)
    requires |d| <= 131074
    ensures CksumValue(d) == 65535 - RawSum(d) % 65535
    ensures OnesSum(d) == 0xffff <==> RawSum(d) % 65535 == 0 && RawSum(d) != 0
  {
    NoOverflow(d);
    OnesSumIsResidue(d);
    ResidueOfOnesSum(OnesSum(d), RawSum(d));
  }

  lemma {:induction false} RawSumOfOnes(n: nat)
    ensures RawSum(seq(n, _ => 255)) == n / 2 * 65535 + (if n % 2 == 1 then 65280 else 0)
  {
    if n >= 2 {
      var d: seq<byte> := seq(n, _ => 255);
      assert d[2..] == seq(n - 2, _ => 255);
      RawSumOfOnes(n - 2);
    }
  }

  /** The bound is exact: one octet more and `cksum` can be wrong. */
  lemma {:induction false} OverflowBoundIsTight(n: nat) returns (d: seq<byte>)
    requires 131074 < n < 0x8000_0000
    ensures |d| == n && CksumValue(d) != NonZeroRfc1071(d)
  {
    d := seq(n, _ => 255);
    RawSumOfOnes(n);
    CksumIsRfc1071(d);
  }

  // ----- sums of concatenations and of patched buffers -----

  lemma {:induction false} RawSumAppend(a: seq<byte>, b: seq<byte>, words: nat)
    requires |a| == 2 * words
    ensures RawSum(a + b) == RawSum(a) + RawSum(b)
    decreases words
  {
    if words == 0 {
      assert a + b == b;
    } else {
      assert (a + b)[2..] == a[2..] + b;
      RawSumAppend(a[2..], b, words - 1);
    }
  }

  lemma {:induction false} RawSumZeros(n: nat)
    ensures RawSum(Zeros(n)) == 0
  {
    if n >= 2 {
      assert Zeros(n)[2..] == Zeros(n - 2);
      RawSumZeros(n - 2);
    }
  }

  /** Zero padding after a whole number of words, or after the missing half of the last word,
      never changes the checksum. */
  lemma {:induction false} ZeroPaddingIsInvisible(d: seq<byte>, n: nat)
    ensures CksumValue(d + Zeros(n)) == CksumValue(d)
  {
    var words := |d| / 2;
    if |d| == 2 * words {
      RawSumAppend(d, Zeros(n), words);
      RawSumZeros(n);
    } else if n == 0 {
      assert d + Zeros(n) == d;
    } else {
      var e, last := d[..2 * words], d[2 * words];
      assert d == e + [last];
      RawSumAppend(e, [last], words);
      assert d + Zeros(n) == e + ([last, 0] + Zeros(n - 1));
      RawSumAppend(e, [last, 0] + Zeros(n - 1), words);
      RawSumAppend([last, 0], Zeros(n - 1), 1);
      RawSumZeros(n - 1);
    }
  }

  lemma {:induction false} RawSumAround(a: seq<byte>, m: seq<byte>, b: seq<byte>, words: nat)
    requires |a| == 2 * words && |m| == 2
    ensures RawSum(a + m + b) == RawSum(a) + Word(m[0], m[1]) + RawSum(b)
  {
    assert a + m + b == a + (m + b);
    RawSumAppend(a, m + b, words);
    RawSumAppend(m, b, 1);
  }

  /** Replacing the aligned word at `off` replaces its contribution to the sum. */
  lemma {:induction false} RawSumSplice(d: seq<byte>, off: nat, v: seq<byte>)
    requires off % 2 == 0 && off + 2 <= |d| && |v| == 2
    ensures RawSum(Splice(d, off, v)) + Get16(d, off) == RawSum(d) + Word(v[0], v[1])
  {
    RawSumAround(d[..off], d[off..off + 2], d[off + 2..], off / 2);
    RawSumAround(d[..off], v, d[off + 2..], off / 2);
    assert d == d[..off] + d[off..off + 2] + d[off + 2..];
  }

  /** `d` with the checksum field at `off` zeroed. */
  function Blank(d: seq<byte>, off: nat): (r: seq<byte>)
    requires off + 2 <= |d|
    ensures |r| == |d| && r[off..off + 2] == [0, 0]
  {
    Splice(d, off, [0, 0])
  }

  /** `d` with the checksum field at `off` zeroed, summed and then filled in. */
  function Seal(d: seq<byte>, off: nat): (r: seq<byte>)
    requires off + 2 <= |d|
    ensures |r| == |d|
    ensures forall i :: 0 <= i < |d| && i != off && i != off + 1 ==> r[i] == d[i]
  {
    Splice(d, off, Put16(CksumValue(Blank(d, off))))
  }

  /** The receiver's test, `recv_sum == cksum(header with zero sum)`. */
  predicate Accepts(d: seq<byte>, off: nat)
    requires off + 2 <= |d|
  {
    Get16(d, off) == CksumValue(Blank(d, off))
  }

  lemma {:induction false} RawSumBlank(d: seq<byte>, off: nat)
    requires off % 2 == 0 && off + 2 <= |d|
    ensures RawSum(Blank(d, off)) + Get16(d, off) == RawSum(d)
  {
    RawSumSplice(d, off, [0, 0]);
  }

  /** f is 65535 minus the residue of s exactly when f is nonzero and f + s is a multiple of 65535. */
  lemma {:induction false} ComplementArithmetic(f: int, s: int)
    requires 0 <= f <= 65535 && 0 <= s
    ensures f == 65535 - s % 65535 <==> f != 0 && (f + s) % 65535 == 0
  {
    ModStep(f + s % 65535, s / 65535);
    assert s == s % 65535 + 65535 * (s / 65535);
  }

  /** The test accepts exactly the buffers whose ones' complement sum, checksum included, is
      0xffff and whose checksum field is not 0 -- the one value RFC 1071 can produce and `cksum`
      cannot. */
  lemma {:induction false} AcceptsIffSumsToOnes(d: seq<byte>, off: nat)
    requires off % 2 == 0 && off + 2 <= |d|
    requires |d| <= 131074
    ensures Accepts(d, off) <==> OnesSum(d) == 0xffff && Get16(d, off) != 0
  {
    RawSumBlank(d, off);
    ResidueForms(d);
    ResidueForms(Blank(d, off));
    ComplementArithmetic(Get16(d, off), RawSum(Blank(d, off)));
  }

  /** A sealed buffer passes the test; within the no-overflow bound it also verifies under RFC 1071. */
  lemma {:induction false} SealedIsAccepted(d: seq<byte>, off: nat)
    requires off % 2 == 0 && off + 2 <= |d|
    ensures Accepts(Seal(d, off), off)
    ensures |d| <= 131074 ==> OnesSum(Seal(d, off)) == 0xffff
  {
    assert Blank(Seal(d, off), off) == Blank(d, off);
    var c := CksumValue(Blank(d, off));
    assert Get16(Seal(d, off), off) == c;
    if |d| <= 131074 { AcceptsIffSumsToOnes(Seal(d, off), off); }
  }
}
