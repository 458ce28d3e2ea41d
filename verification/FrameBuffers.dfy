/** The code of sr_router.c that writes frames in place, against the frames of Packets. */
module FrameBuffers {
  import opened Bytes
  import opened Checksum
  import opened Packets
  import opened Routing

  /** `memcpy(buf + off, v, |v|)`. */
  method Store(buf: array<byte>, off: nat, v: seq<byte>)
    requires off + |v| <= buf.Length
    modifies buf
    ensures buf[..] == Splice(old(buf[..]), off, v)
  {
    var i := 0;
    while i < |v|
      invariant 0 <= i <= |v|
      invariant forall j :: 0 <= j < buf.Length ==> buf[j] == if off <= j < off + i then v[j - off] else old(buf[j])
    {
      buf[off + i] := v[i];
      i := i + 1;
    }
  }

  /** A store into a zeroed buffer, right after what was stored so far. */
  method Append(buf: array<byte>, off: nat, v: seq<byte>, ghost front: seq<byte>)
    requires |front| == off && off + |v| <= buf.Length && buf[..] == front + Zeros(buf.Length - off)
    modifies buf
    ensures buf[..] == front + v + Zeros(buf.Length - off - |v|)
  {
    Store(buf, off, v);
  }

  /** `malloc` and `memcpy`. */
  method Copy(f: seq<byte>) returns (buf: array<byte>)
    ensures fresh(buf) && buf[..] == f
  {
    buf := new byte[|f|](i requires 0 <= i < |f| => f[i]);
  }

  /** `calloc`. */
  method Blanks(n: nat) returns (buf: array<byte>)
    ensures fresh(buf) && buf[..] == Zeros(n)
  {
    buf := new byte[n](_ => 0);
  }

  lemma {:induction false} SealSplits(f: Frame, start: nat, n: nat, off: nat)
    requires start + n <= |f| && off + 2 <= n
    ensures var g := Splice(f, start + off, [0, 0]);
            Splice(g, start + off, Put16(CksumValue(g[start..start + n]))) == SealAt(f, start, n, off)
  {
    var g := Splice(f, start + off, [0, 0]);
    assert g[start..start + n] == Blank(f[start..start + n], off);
  }

  lemma {:induction false} VerifySplits(f: Frame, start: nat, n: nat, off: nat, sum: seq<byte>)
    requires start + n <= |f| && off + 2 <= n && sum == [f[start + off], f[start + off + 1]]
    ensures var g := Splice(f, start + off, [0, 0]);
            && Splice(g, start + off, sum) == f
            && Accepts(f[start..start + n], off) == (Word(sum[0], sum[1]) == CksumValue(g[start..start + n]))
  {
    var g := Splice(f, start + off, [0, 0]);
    assert g[start..start + n] == Blank(f[start..start + n], off);
  }

  /** `cksum(buf + start, n)`. */
  method CksumPart(buf: array<byte>, start: nat, n: nat) returns (c: int)
    requires start + n <= buf.Length
    ensures c == CksumValue(buf[..][start..start + n])
  {
    assert buf[start..start + n] == buf[..][start..start + n];
    c := Cksum(buf[start..start + n]);
  }

  /** `sum = 0; sum = cksum(...)` for the checksum at `off` of the `n` octets from `start`. */
  method SealInPlace(buf: array<byte>, start: nat, n: nat, off: nat)
    requires start + n <= buf.Length && off + 2 <= n
    modifies buf
    ensures buf[..] == SealAt(old(buf[..]), start, n, off)
  {
    SealSplits(buf[..], start, n, off);
    Store(buf, start + off, [0, 0]);
    var c := CksumPart(buf, start, n);
    Store(buf, start + off, Put16(c));
  }

  /** The receiver's test, which zeroes the checksum in the packet and puts it back. */
  method Verify(buf: array<byte>, start: nat, n: nat, off: nat) returns (ok: bool)
    requires start + n <= buf.Length && off + 2 <= n
    modifies buf
    ensures buf[..] == old(buf[..]) && ok == Accepts(buf[start..start + n], off)
  {
    ghost var f := buf[..];
    var sum := [buf[start + off], buf[start + off + 1]];
    VerifySplits(f, start, n, off, sum);
    Store(buf, start + off, [0, 0]);
    var c := CksumPart(buf, start, n);
    Store(buf, start + off, sum);
    ok := Word(sum[0], sum[1]) == c;
    assert buf[start..start + n] == buf[..][start..start + n];
  }

  /** The private copy that `handle_ip_packet` forwards. */
  method ForwardCopy(packet: Frame) returns (frame: array<byte>)
    requires LengthsOk(packet) && Ttl(packet) > 0
    ensures fresh(frame) && frame[..] == Forwarded(packet)
  {
    frame := Copy(packet);
    Store(frame, 22, [packet[22] - 1]);
    SealInPlace(frame, 14, packet[14] % 16 * 4, 10);
  }

  lemma {:induction false} SpliceTwice(f: seq<byte>, off: nat, a: seq<byte>, b: seq<byte>)
    requires off + |a| + |b| <= |f|
    ensures Splice(Splice(f, off, a), off + |a|, b) == Splice(f, off, a + b)
  {
  }

  /** The header part of `send_icmp_echo_reply`. */
  method EchoHeaderInPlace(buf: array<byte>)
    requires LengthsOk(buf[..])
    modifies buf
    ensures buf[..] == EchoHeader(old(buf[..]))
  {
    ghost var f := buf[..];
    var origSrc, origDst := buf[26..30], buf[30..34];
    Store(buf, 26, origDst);
    Store(buf, 30, origSrc);
    SpliceTwice(f, 26, f[30..34], f[26..30]);
    Store(buf, 22, [INIT_TTL]);
    SealInPlace(buf, 14, buf[14] % 16 * 4, 10);
  }

  /** The frame `send_icmp_echo_reply` builds. */
  method BuildEchoReply(packet: Frame) returns (buf: array<byte>)
    requires LengthsOk(packet) && |Icmp(packet)| >= 8
    ensures fresh(buf) && buf[..] == EchoReply(packet)
  {
    var off := 14 + packet[14] % 16 * 4;
    buf := Copy(packet);
    EchoHeaderInPlace(buf);
    Store(buf, off, [0, 0]);
    SealInPlace(buf, off, buf.Length - off, 2);
  }

  lemma {:induction false} SpliceMiddle(a: seq<byte>, m: seq<byte>, b: seq<byte>, v: seq<byte>)
    requires |v| == |m|
    ensures Splice(a + m + b, |a|, v) == a + v + b
  {
  }

  lemma {:induction false} SealMiddle(a: seq<byte>, m: seq<byte>, b: seq<byte>, off: nat)
    requires off + 2 <= |m|
    ensures SealAt(a + m + b, |a|, |m|, off) == a + Seal(m, off) + b
  {
    assert (a + m + b)[|a|..|a| + |m|] == m;
    SpliceMiddle(a, m, b, Seal(m, off));
  }

  /** The IP header of `send_icmp_error`. */
  method ErrorHeaderInPlace(buf: array<byte>, src: Ip, dst: Ip)
    requires buf[..] == Zeros(70)
    modifies buf
    ensures buf[..] == Zeros(14) + ErrorHeader(src, dst) + Zeros(36)
  {
    ghost var h := [0x45, 0, 0, 56, 0, 0, 0x40, 0, INIT_TTL, 1, 0, 0];
    Append(buf, 14, [0x45, 0, 0, 56, 0, 0, 0x40, 0, INIT_TTL, 1, 0, 0], Zeros(14));
    Append(buf, 26, src, Zeros(14) + h);
    Append(buf, 30, dst, Zeros(14) + h + src);
    assert Zeros(14) + h + src + dst == Zeros(14) + (h + src + dst);
    SealMiddle(Zeros(14), h + src + dst, Zeros(36), 10);
    SealInPlace(buf, 14, 20, 10);
  }

  /** The ICMP part. */
  method ErrorBodyInPlace(buf: array<byte>, kind: byte, code: byte, quote: seq<byte>, ghost front: seq<byte>)
    requires |front| == 34 && |quote| == 28 && buf[..] == front + Zeros(36)
    modifies buf
    ensures buf[..] == front + ErrorBody(kind, code, quote)
  {
    ghost var d := [kind, code, 0, 0, 0, 0, 0, 0] + quote;
    Store(buf, 34, [kind, code, 0, 0, 0, 0, 0, 0]);
    Store(buf, 42, quote);
    assert buf[..] == front + d + [];
    SealMiddle(front, d, [], 2);
    SealInPlace(buf, 34, 36, 2);
  }

  /** The frame `send_icmp_error` builds. */
  method BuildIcmpError(kind: byte, code: byte, orig: Frame, src: Ip, beyond: seq<byte>) returns (buf: array<byte>)
    requires |orig| >= 34 && |beyond| >= 8
    ensures fresh(buf) && buf[..] == IcmpError(kind, code, orig, src, beyond)
  {
    buf := Blanks(70);
    ErrorHeaderInPlace(buf, src, orig[26..30]);
    var quote := (orig[14..] + beyond)[..28];
    ErrorBodyInPlace(buf, kind, code, quote, Zeros(14) + ErrorHeader(src, Src(orig)));
  }

  /** The Ethernet header and the fixed ARP fields of `send_arp_reply` and `send_arp_request`. */
  method BeginArp(dhost: Mac, op: byte, sha: Mac) returns (buf: array<byte>)
    ensures fresh(buf) && buf[..] == dhost + sha + [8, 6] + [0, 1, 8, 0, 6, 4, 0, op] + Zeros(20)
  {
    buf := Blanks(42);
    assert [] + dhost == dhost;
    Append(buf, 0, dhost, []);
    Append(buf, 6, sha, dhost);
    Append(buf, 12, [8, 6], dhost + sha);
    Append(buf, 14, [0, 1, 8, 0, 6, 4, 0, op], dhost + sha + [8, 6]);
  }

  /** The frame they send. */
  method BuildArp(dhost: Mac, op: byte, sha: Mac, sip: Ip, tha: Mac, tip: Ip) returns (buf: array<byte>)
    ensures fresh(buf) && buf[..] == ArpFrame(dhost, op, sha, sip, tha, tip)
  {
    buf := BeginArp(dhost, op, sha);
    ghost var f := dhost + sha + [8, 6] + [0, 1, 8, 0, 6, 4, 0, op];
    Append(buf, 22, sha, f);
    Append(buf, 28, sip, f + sha);
    Append(buf, 32, tha, f + sha + sip);
    Append(buf, 38, tip, f + sha + sip + tha);
    assert f + sha + sip + tha + tip + Zeros(0) == f + sha + sip + tha + tip;
  }

  /** The link header `route_and_send` writes. */
  method StampInPlace(frame: array<byte>, mac: Mac)
    requires frame.Length >= 34
    modifies frame
    ensures frame[..] == Stamp(old(frame[..]), mac)
  {
    Store(frame, 6, mac);
    Store(frame, 12, [8, 0]);
  }

  /** The link header the drain loop writes: the source only if the interface still exists. */
  method AddressInPlace(buf: array<byte>, iface: Option<Iface>, mac: Mac)
    requires buf.Length >= 14
    modifies buf
    ensures buf[..] == Address(old(buf[..]), if iface.Some? then iface.value.addr else Shost(old(buf[..])), mac)
  {
    if iface.Some? {
      Store(buf, 6, iface.value.addr);
    }
    Store(buf, 0, mac);
  }
}
