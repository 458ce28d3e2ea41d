/** The streaming implementation of sha1.c, which refines FIPS PUB 180-1. */
module Sha1Stream {
  import opened Bytes
  import opened BlockHashing
  import opened Fips180

  const TWO32 := 0x1_0000_0000

  /** Messages of this many octets or more overflow the 64-bit length counter. */
  const LIMIT := 0x2000_0000_0000_0000

  function ToBuffer(d: seq<word>): Buffer
    requires |d| == 5
  {
    Buffer(d[0], d[1], d[2], d[3], d[4])
  }

  /** `f` is the compression function of FIPS PUB 180-1 on whole blocks. */
  ghost predicate IsCompression(f: (Buffer, seq<byte>) -> Buffer) {
    forall h: Buffer, m: seq<byte> {:trigger Compress(h, m)} :: |m| == 64 ==> f(h, m) == Compress(h, m)
  }

  lemma {:induction false} FoldIsBlocks(f: (Buffer, seq<byte>) -> Buffer, m: seq<byte>, n: nat)
    requires IsCompression(f) && 64 * n <= |m|
    ensures Fold(f, H0, m, n) == Blocks(m, n)
  {
    if n > 0 {
      FoldIsBlocks(f, m, n - 1);
      var h, b := Blocks(m, n - 1), m[64 * (n - 1)..64 * n];
      assert f(h, b) == Compress(h, b);
    }
  }

  lemma {:induction false} DigestIsSha1(f: (Buffer, seq<byte>) -> Buffer, m: seq<byte>)
    requires IsCompression(f)
    ensures Digest(f, H0, m) == Sha1(m)
  {
    PadFillsBlocks(m);
    FoldIsBlocks(f, Pad(m), |Pad(m)| / 64);
  }

  /** The split counter says `n` octets. */
  predicate Counts(high: nat, low: nat, n: nat) {
    low < TWO32 && high < TWO32 && high * TWO32 + low == 8 * n
  }

  /** The whole blocks of `m` are in `h` and the rest of it is `part`. */
  ghost predicate IsAbsorbed(f: (Buffer, seq<byte>) -> Buffer, m: seq<byte>, h: Buffer, part: seq<byte>) {
    && |part| == |m| % 64 && m == m[..|m| - |part|] + part
    && h == Fold(f, H0, m, |m| / 64)
  }

  /** One more octet. */
  lemma {:induction false} AbsorbsOctet(f: (Buffer, seq<byte>) -> Buffer, m: seq<byte>, h: Buffer, part: seq<byte>,
                                        x: byte)
    requires IsAbsorbed(f, m, h, part)
    ensures if |part| == 63 then IsAbsorbed(f, m + [x], f(h, part + [x]), [])
            else IsAbsorbed(f, m + [x], h, part + [x])
  {
    if |part| == 63 {
      AbsorbFull(f, H0, m, m[..|m| - |part|], part, x);
    } else {
      AbsorbPart(f, H0, m, m[..|m| - |part|], part, x);
    }
  }

  /** The padding, in one block or in two. */
  lemma {:induction false} CompletesDigest(f: (Buffer, seq<byte>) -> Buffer, m: seq<byte>, h: Buffer, part: seq<byte>)
    requires IsAbsorbed(f, m, h, part)
    ensures if |part| <= 55 then
              Digest(f, H0, m) == f(h, part + [0x80] + Zeros(55 - |part|) + Octets64(8 * |m|))
            else
              Digest(f, H0, m) == f(f(h, part + [0x80] + Zeros(63 - |part|)), Zeros(56) + Octets64(8 * |m|))
  {
    TailIs(m, m[..|m| - |part|], part);
    if |part| <= 55 {
      PadShort(f, H0, m, part + [0x80] + Zeros(55 - |part|) + Octets64(8 * |m|));
    } else {
      PadLong(f, H0, m, part + [0x80] + Zeros(63 - |part|), Zeros(56) + Octets64(8 * |m|));
    }
  }

  lemma {:induction false} LowCountsOctets(high: nat, low: nat, n: nat)
    requires Counts(high, low, n)
    ensures low % 8 == 0
  {
    assert low == 8 * (n - high * (TWO32 / 8));
  }

  // ----- one block -----

  method FirstWord(m: array<byte>, t: nat) returns (x: word)
    requires m.Length == 64 && t < 16
    ensures x == Words(m[..])[t]
  {
    x := (m[t * 4] as bv32 << 24) | (m[t * 4 + 1] as bv32 << 16) | (m[t * 4 + 2] as bv32 << 8) | m[t * 4 + 3] as bv32;
  }

  method NextWord(w: array<word>, t: nat, ghost m: seq<byte>) returns (x: word)
    requires w.Length == 80 && 16 <= t < 80 && |m| == 64
    requires forall i :: 0 <= i < t ==> w[i] == Words(m)[i]
    ensures x == Words(m)[t]
  {
    x := S(1, Xor4(w[t - 3], w[t - 8], w[t - 14], w[t - 16]));
    WordsStep(m, t);
  }

  /** The loops that fill the word sequence. */
  method Schedule(block: array<byte>) returns (w: array<word>)
    requires block.Length == 64
    ensures fresh(w) && w[..] == Words(block[..])
  {
    ghost var m := block[..];
    ghost var ws := Words(m);
    w := new word[80];
    var t := 0;
    while t < 16
      invariant 0 <= t <= 16 && block[..] == m
      invariant forall i :: 0 <= i < t ==> w[i] == ws[i]
    {
      var x := FirstWord(block, t);
      w[t] := x;
      t := t + 1;
    }
    while t < 80
      invariant 16 <= t <= 80 && block[..] == m
      invariant forall i :: 0 <= i < t ==> w[i] == ws[i]
    {
      var x := NextWord(w, t, m);
      w[t] := x;
      t := t + 1;
    }
  }

  method ChooseRound(r: Buffer, w: word, ghost t: nat) returns (q: Buffer)
    requires t < 20
    ensures q == Round(w, t, r)
  {
    var temp := Sum5(S(5, r.a), ((r.b & r.c) | ((!r.b) & r.d)), r.e, w, 0x5A827999);
    q := Buffer(temp, r.a, S(30, r.b), r.c, r.d);
  }

  method ParityRound(r: Buffer, w: word, k: word, ghost t: nat) returns (q: Buffer)
    requires 20 <= t < 40 || 60 <= t < 80
    requires k == if t < 40 then 0x6ED9EBA1 else 0xCA62C1D6
    ensures q == Round(w, t, r)
  {
    var temp := Sum5(S(5, r.a), (r.b ^ r.c ^ r.d), r.e, w, k);
    q := Buffer(temp, r.a, S(30, r.b), r.c, r.d);
  }

  method MajorityRound(r: Buffer, w: word, ghost t: nat) returns (q: Buffer)
    requires 40 <= t < 60
    ensures q == Round(w, t, r)
  {
    var temp := Sum5(S(5, r.a), ((r.b & r.c) | (r.b & r.d) | (r.c & r.d)), r.e, w, 0x8F1BBCDC);
    q := Buffer(temp, r.a, S(30, r.b), r.c, r.d);
  }

  /** The first of the four loops. */
  method ChooseRounds(w: array<word>, h: Buffer) returns (r: Buffer)
    requires w.Length == 80
    ensures r == Rounds(w[..20], h)
  {
    r := h;
    var t := 0;
    while t < 20
      invariant 0 <= t <= 20 && r == Rounds(w[..t], h)
    {
      assert w[..t + 1][..t] == w[..t];
      r := ChooseRound(r, w[t], t);
      t := t + 1;
    }
  }

  /** The second and the fourth. */
  method ParityRounds(w: array<word>, q: Buffer, from: nat, k: word, ghost h: Buffer) returns (r: Buffer)
    requires w.Length == 80 && (from == 20 || from == 60) && q == Rounds(w[..from], h)
    requires k == if from == 20 then 0x6ED9EBA1 else 0xCA62C1D6
    ensures r == Rounds(w[..from + 20], h)
  {
    r := q;
    var t := from;
    while t < from + 20
      invariant from <= t <= from + 20 && r == Rounds(w[..t], h)
    {
      assert w[..t + 1][..t] == w[..t];
      r := ParityRound(r, w[t], k, t);
      t := t + 1;
    }
  }

  /** The third. */
  method MajorityRounds(w: array<word>, q: Buffer, ghost h: Buffer) returns (r: Buffer)
    requires w.Length == 80 && q == Rounds(w[..40], h)
    ensures r == Rounds(w[..60], h)
  {
    r := q;
    var t := 40;
    while t < 60
      invariant 40 <= t <= 60 && r == Rounds(w[..t], h)
    {
      assert w[..t + 1][..t] == w[..t];
      r := MajorityRound(r, w[t], t);
      t := t + 1;
    }
  }

  /** The four loops over the 80 rounds. */
  method RunRounds(w: array<word>, h: Buffer) returns (r: Buffer)
    requires w.Length == 80
    ensures r == Rounds(w[..], h)
  {
    r := ChooseRounds(w, h);
    r := ParityRounds(w, r, 20, 0x6ED9EBA1, h);
    r := MajorityRounds(w, r, h);
    r := ParityRounds(w, r, 60, 0xCA62C1D6, h);
    assert w[..80] == w[..];
  }

  /** The additions that end a block. */
  method AddInto(digest: array<word>, r: Buffer)
    requires digest.Length == 5
    modifies digest
    ensures ToBuffer(digest[..]) == Plus(ToBuffer(old(digest[..])), r)
  {
    digest[0] := Add(digest[0], r.a);
    digest[1] := Add(digest[1], r.b);
    digest[2] := Add(digest[2], r.c);
    digest[3] := Add(digest[3], r.d);
    digest[4] := Add(digest[4], r.e);
  }

  method StoreInitial(digest: array<word>)
    requires digest.Length == 5
    modifies digest
    ensures ToBuffer(digest[..]) == H0
  {
    digest[0], digest[1], digest[2], digest[3], digest[4] := 0x67452301, 0xEFCDAB89, 0x98BADCFE, 0x10325476, 0xC3D2E1F0;
  }

  // ----- the context -----

  class Sha1Context {
    var digest: array<word>
    var lengthLow: nat
    var lengthHigh: nat
    var block: array<byte>
    var index: nat
    var computed: bool
    var corrupted: bool
    ghost var msg: seq<byte>
    ghost const f: (Buffer, seq<byte>) -> Buffer

    ghost predicate Valid()
      reads this, digest, block
    {
      && digest.Length == 5 && block.Length == 64 && index < 64 && IsCompression(f)
      && (!corrupted ==> |msg| < LIMIT)
      && (!corrupted && computed ==> ToBuffer(digest[..]) == Digest(f, H0, msg))
      && (!corrupted && !computed ==> Absorbed())
    }

    /** All of `msg` has gone in: whole blocks into the digest, the rest into the block. */
    ghost predicate Absorbed()
      requires digest.Length == 5 && block.Length == 64
      reads this, digest, block
    {
      && index < 64 && Counts(lengthHigh, lengthLow, |msg|)
      && IsAbsorbed(f, msg, ToBuffer(digest[..]), block[..index])
    }

    /** `SHA1Reset`, on a context that is just being allocated. */
    constructor ()
      ensures Valid() && !computed && !corrupted && msg == []
      ensures fresh(digest) && fresh(block)
    {
      lengthLow, lengthHigh, index := 0, 0, 0;
      digest := new word[5];
      block := new byte[64];
      computed, corrupted := false, false;
      msg, f := [], STEP;
      new;
      StoreInitial(digest);
    }

    /** `SHA1Reset`. */
    method Reset()
      requires Valid()
      modifies this, digest
      ensures Valid() && !computed && !corrupted && msg == [] && digest == old(digest) && block == old(block)
    {
      lengthLow, lengthHigh, index := 0, 0, 0;
      StoreInitial(digest);
      computed, corrupted := false, false;
      msg := [];
    }

    /** `SHA1ProcessMessageBlock`. */
    method ProcessMessageBlock()
      requires digest.Length == 5 && block.Length == 64 && IsCompression(f)
      modifies this`index, digest
      ensures index == 0
      ensures ToBuffer(digest[..]) == f(ToBuffer(old(digest[..])), block[..])
    {
      var w := Schedule(block);
      ghost var h, m := ToBuffer(digest[..]), block[..];
      assert f(h, m) == Compress(h, m);
      var r := RunRounds(w, ToBuffer(digest[..]));
      AddInto(digest, r);
      index := 0;
    }

    /** The length counter after one more octet. */
    method CountOctet()
      requires lengthLow < TWO32 && lengthHigh < TWO32 && lengthLow % 8 == 0
      modifies this`lengthLow, this`lengthHigh, this`corrupted
      ensures lengthLow < TWO32 && lengthHigh < TWO32 && lengthLow % 8 == 0
      ensures var bits := old(lengthHigh) * TWO32 + old(lengthLow) + 8;
              if bits == TWO32 * TWO32 then corrupted
              else corrupted == old(corrupted) && lengthHigh * TWO32 + lengthLow == bits
    {
      lengthLow := (lengthLow + 8) % TWO32;
      if lengthLow == 0 {
        lengthHigh := (lengthHigh + 1) % TWO32;
        if lengthHigh == 0 {
          corrupted := true;
        }
      }
    }

    method StoreOctet(x: byte)
      requires block.Length == 64 && index < 64
      modifies this`index, block
      ensures index == old(index) + 1 && block[..index] == old(block[..index]) + [x]
    {
      block[index] := x;
      index := index + 1;
    }

    /** One iteration of `SHA1Input`. */
    method InputOctet(x: byte)
      requires Valid() && !computed && !corrupted
      modifies this, digest, block
      ensures Valid() && !computed && digest == old(digest) && block == old(block)
      ensures corrupted == (|old(msg)| + 1 == LIMIT)
      ensures msg == old(msg) + [x]
    {
      ghost var m, h, part := msg, ToBuffer(digest[..]), block[..index];
      LowCountsOctets(lengthHigh, lengthLow, |m|);
      AbsorbsOctet(f, m, h, part, x);
      StoreOctet(x);
      CountOctet();
      msg := m + [x];
      assert !corrupted ==> Counts(lengthHigh, lengthLow, |msg|);
      if index == 64 {
        assert block[..] == block[..64] == part + [x];
        ProcessMessageBlock();
        assert ToBuffer(digest[..]) == f(h, part + [x]) && block[..0] == [];
      } else {
        assert ToBuffer(digest[..]) == h && block[..index] == part + [x];
      }
    }

    /** `SHA1Input`: any number of octets, at any time. */
    method Input(data: seq<byte>)
      requires Valid()
      modifies this, digest, block
      ensures Valid() && computed == old(computed) && digest == old(digest) && block == old(block)
      ensures data == [] ==> corrupted == old(corrupted) && msg == old(msg)
      ensures data != [] && (old(computed) || old(corrupted)) ==> corrupted
      ensures data != [] && !old(computed) && !old(corrupted) ==> corrupted == (|old(msg)| + |data| >= LIMIT)
      ensures !corrupted ==> msg == old(msg) + data
    {
      if data == [] { return; }
      if computed || corrupted {
        corrupted := true;
        return;
      }
      var i := 0;
      while i < |data| && !corrupted
        invariant 0 <= i <= |data| && Valid() && !computed && digest == old(digest) && block == old(block)
        invariant msg == old(msg) + data[..i]
        invariant corrupted == (|msg| >= LIMIT)
      {
        assert data[..i + 1] == data[..i] + [data[i]];
        InputOctet(data[i]);
        i := i + 1;
      }
      assert i == |data| ==> data[..i] == data;
    }

    /** Zero octets up to `limit`. */
    method ZeroTo(limit: nat)
      requires block.Length == 64 && index <= limit <= 64
      modifies this`index, block
      ensures index == limit && block[..limit] == old(block[..index]) + Zeros(limit - old(index))
    {
      while index < limit
        invariant old(index) <= index <= limit
        invariant block[..index] == old(block[..index]) + Zeros(index - old(index))
      {
        block[index] := 0;
        index := index + 1;
      }
    }

    /** The length as the last 8 octets. */
    method StoreLength()
      requires block.Length == 64 && lengthLow < TWO32 && lengthHigh < TWO32
      modifies block
      ensures block[..] == old(block[..56]) + Octets64(lengthHigh * TWO32 + lengthLow)
    {
      block[56] := lengthHigh / 0x100_0000 % 256;
      block[57] := lengthHigh / 0x1_0000 % 256;
      block[58] := lengthHigh / 0x100 % 256;
      block[59] := lengthHigh % 256;
      block[60] := lengthLow / 0x100_0000 % 256;
      block[61] := lengthLow / 0x1_0000 % 256;
      block[62] := lengthLow / 0x100 % 256;
      block[63] := lengthLow % 256;
      OctetsFromHalves(lengthHigh, lengthLow);
      assert block[..56] == old(block[..56]);
      assert block[56..] == Octets64(lengthHigh * TWO32 + lengthLow);
      assert block[..] == block[..56] + block[56..];
    }

    /** The octet 0x80, then zeros up to `limit`. */
    method MarkAndZero(limit: nat)
      requires block.Length == 64 && index < limit <= 64
      modifies this`index, block
      ensures index == limit && block[..limit] == old(block[..index]) + [0x80] + Zeros(limit - 1 - old(index))
    {
      ghost var part := block[..index];
      block[index] := 0x80;
      index := index + 1;
      assert block[..index] == part + [0x80];
      ZeroTo(limit);
    }

    /** A block of zeros and the length. */
    method LengthBlock()
      requires block.Length == 64 && index <= 56 && lengthLow < TWO32 && lengthHigh < TWO32
      requires digest.Length == 5 && IsCompression(f)
      modifies this`index, digest, block
      ensures index == 0
      ensures ToBuffer(digest[..]) == f(ToBuffer(old(digest[..])),
        old(block[..index]) + Zeros(56 - old(index)) + Octets64(lengthHigh * TWO32 + lengthLow))
    {
      ZeroTo(56);
      StoreLength();
      ProcessMessageBlock();
    }

    /** The branch of `SHA1PadMessage` that needs a second block. */
    method PadTwoBlocks()
      requires Valid() && !computed && !corrupted && index > 55
      modifies this`index, digest, block
      ensures index == 0 && ToBuffer(digest[..]) == Digest(f, H0, msg)
    {
      CompletesDigest(f, msg, ToBuffer(digest[..]), block[..index]);
      MarkAndZero(64);
      assert block[..] == block[..64];
      ProcessMessageBlock();
      assert block[..index] + Zeros(56) == Zeros(56);
      LengthBlock();
    }

    /** The branch that does not. */
    method PadOneBlock()
      requires Valid() && !computed && !corrupted && index <= 55
      modifies this`index, digest, block
      ensures index == 0 && ToBuffer(digest[..]) == Digest(f, H0, msg)
    {
      CompletesDigest(f, msg, ToBuffer(digest[..]), block[..index]);
      MarkAndZero(56);
      StoreLength();
      ProcessMessageBlock();
    }

    /** `SHA1PadMessage`. */
    method PadMessage()
      requires Valid() && !computed && !corrupted
      modifies this`index, digest, block
      ensures index == 0 && ToBuffer(digest[..]) == Digest(f, H0, msg)
    {
      if index > 55 {
        PadTwoBlocks();
      } else {
        PadOneBlock();
      }
    }

    /** `SHA1Result`. */
    method Result() returns (ok: bool)
      requires Valid()
      modifies this, digest, block
      ensures Valid() && ok == !corrupted && corrupted == old(corrupted) && msg == old(msg)
      ensures digest == old(digest) && block == old(block)
      ensures ok ==> computed && ToBuffer(digest[..]) == Sha1(msg)
    {
      if corrupted { return false; }
      if !computed {
        PadMessage();
        computed := true;
      }
      DigestIsSha1(f, msg);
      return true;
    }
  }

  // ----- whole hashes -----

  function Joined(pieces: seq<seq<byte>>): seq<byte> {
    if pieces == [] then [] else Joined(pieces[..|pieces| - 1]) + pieces[|pieces| - 1]
  }

  /** Any number of inputs, one after the other. */
  method InputAll(c: Sha1Context, pieces: seq<seq<byte>>)
    requires c.Valid() && !c.computed && !c.corrupted && c.msg == []
    modifies c, c.digest, c.block
    ensures c.Valid() && !c.computed && c.digest == old(c.digest) && c.block == old(c.block)
    ensures c.corrupted == (|Joined(pieces)| >= LIMIT)
    ensures !c.corrupted ==> c.msg == Joined(pieces)
  {
    var i := 0;
    while i < |pieces|
      invariant 0 <= i <= |pieces| && c.Valid() && !c.computed && c.digest == old(c.digest) && c.block == old(c.block)
      invariant c.corrupted == (|Joined(pieces[..i])| >= LIMIT)
      invariant !c.corrupted ==> c.msg == Joined(pieces[..i])
    {
      assert pieces[..i + 1][..i] == pieces[..i];
      c.Input(pieces[i]);
      i := i + 1;
    }
    assert pieces[..i] == pieces;
  }

  /** Reset, any number of inputs, result: the digest of the concatenation, however it was split,
      and a result exactly for messages below the limit. */
  method HashPieces(pieces: seq<seq<byte>>) returns (ok: bool, h: Buffer)
    ensures ok == (|Joined(pieces)| < LIMIT)
    ensures ok ==> h == Sha1(Joined(pieces))
  {
    var c := new Sha1Context();
    InputAll(c, pieces);
    ok := c.Result();
    h := ToBuffer(c.digest[..]);
  }

  /** The salted key of an authentication reply hashes as salt and key run together. */
  method SaltedHash(salt: seq<byte>, key: seq<byte>) returns (ok: bool, h: Buffer)
    ensures ok == (|salt| + |key| < LIMIT)
    ensures ok ==> h == Sha1(salt + key)
  {
    ok, h := HashPieces([salt, key]);
    assert [salt, key][..1] == [salt] && [salt][..0] == [];
    assert Joined([salt]) == salt;
    assert Joined([salt, key]) == salt + key;
  }
}
