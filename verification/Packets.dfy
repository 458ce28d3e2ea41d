/** Frame layout, the IP header test, and every frame the router builds or rewrites. */
module Packets {
  import opened Bytes
  import opened Checksum

  type Frame = seq<byte>

  const INIT_TTL: byte := 255

  function Shost(f: Frame): (m: Mac)
    requires |f| >= 14
  {
    f[6..12]
  }

  function Dhost(f: Frame): (m: Mac)
    requires |f| >= 14
  {
    f[0..6]
  }

  function Ethertype(f: Frame): (t: int)
    requires |f| >= 14
  {
    Get16(f, 12)
  }

  function Src(f: Frame): (ip: Ip)
    requires |f| >= 34
  {
    f[26..30]
  }

  function Dst(f: Frame): (ip: Ip)
    requires |f| >= 34
  {
    f[30..34]
  }

  function Ttl(f: Frame): (t: byte)
    requires |f| >= 34
  {
    f[22]
  }

  /** `ip_hl * 4`: the low nibble of the first IP octet counts 32-bit words. */
  function HeaderLen(f: Frame): (n: nat)
    requires |f| >= 34
    ensures n <= 60 && n % 4 == 0
  {
    f[14] % 16 * 4
  }

  function Header(f: Frame): (h: seq<byte>)
    requires |f| >= 34 && |f| >= 14 + HeaderLen(f)
    ensures |h| == HeaderLen(f)
  {
    f[14..14 + HeaderLen(f)]
  }

  function Icmp(f: Frame): (d: seq<byte>)
    requires |f| >= 34 && |f| >= 14 + HeaderLen(f)
  {
    f[14 + HeaderLen(f)..]
  }

  /** The length tests at the top of `handle_ip_packet`. */
  predicate LengthsOk(f: Frame) {
    && |f| >= 34
    && HeaderLen(f) >= 20
    && |f| >= 14 + HeaderLen(f)
    && Get16(f, 16) >= HeaderLen(f)
  }

  /** All tests `handle_ip_packet` makes before it acts on a packet. */
  predicate IpValid(f: Frame) {
    LengthsOk(f) && Accepts(Header(f), 10)
  }

  /** In octets: a packet is accepted exactly when it has at least 20 octets of IP header, all of the header
      that its first octet announces, a total length that covers it, a header that sums to 0xffff under
      RFC 1071, and a checksum that is not 0. */
  lemma {:induction false} IpValidIff(f: Frame)
    ensures IpValid(f) <==>
              |f| >= 34 && var n := f[14] % 16 * 4;
              && n >= 20 && |f| >= 14 + n && f[16] as int * 256 + f[17] as int >= n
              && OnesSum(f[14..14 + n]) == 0xffff && (f[24] != 0 || f[25] != 0)
  {
    if LengthsOk(f) {
      AcceptsIffSumsToOnes(Header(f), 10);
      assert Get16(Header(f), 10) == Get16(f, 24);
    }
  }

  /** Fill in the checksum at `off` of the part of `f` that starts at `start` and is `n` long. */
  function SealAt(f: Frame, start: nat, n: nat, off: nat): (r: Frame)
    requires start + n <= |f| && off + 2 <= n
    ensures |r| == |f|
    ensures r[start..start + n] == Seal(f[start..start + n], off)
    ensures forall i :: 0 <= i < |f| && i != start + off && i != start + off + 1 ==> r[i] == f[i]
  {
    var r := Splice(f, start, Seal(f[start..start + n], off));
    assert r[start..start + n] == Seal(f[start..start + n], off);
    r
  }

  // ----- forwarding -----

  /** The private copy `handle_ip_packet` forwards: TTL one lower, checksum recomputed. */
  function Forwarded(f: Frame): (r: Frame)
    requires LengthsOk(f) && Ttl(f) > 0
  {
    SealAt(Splice(f, 22, [f[22] - 1]), 14, HeaderLen(f), 10)
  }

  /** Two frames of the same length that differ only in TTL and IP checksum. */
  predicate SameButTtlAndSum(f: Frame, r: Frame) {
    |r| == |f| && forall i :: 0 <= i < |f| && i !in {22, 24, 25} ==> r[i] == f[i]
  }

  /** Forwarding changes the TTL and the checksum and nothing else, and the result is again a
      packet the router itself would accept. */
  lemma {:induction false} ForwardedFacts(f: Frame)
    requires IpValid(f) && Ttl(f) > 1
    ensures SameButTtlAndSum(f, Forwarded(f))
    ensures Ttl(Forwarded(f)) == Ttl(f) - 1 >= 1
    ensures IpValid(Forwarded(f)) && OnesSum(Header(Forwarded(f))) == 0xffff
  {
    var g := Splice(f, 22, [f[22] - 1]);
    SealedIsAccepted(g[14..14 + HeaderLen(f)], 10);
    assert Header(Forwarded(f)) == Seal(g[14..14 + HeaderLen(f)], 10);
  }

  lemma {:induction false} ForwardedAddresses(f: Frame)
    requires IpValid(f) && Ttl(f) > 1
    ensures |Forwarded(f)| == |f| && Dst(Forwarded(f)) == Dst(f) && Src(Forwarded(f)) == Src(f)
  {
    ForwardedFacts(f);
  }

  // ----- ICMP echo -----

  /** The tests that guard `send_icmp_echo_reply`, past destination and protocol. */
  predicate EchoRequestOk(f: Frame)
    requires LengthsOk(f)
  {
    |Icmp(f)| >= 8 && Icmp(f)[0] == 8 && Accepts(Icmp(f), 2)
  }

  /** In octets, for an ICMP part that starts at `off`: at least 8 octets, type 8, and a checksum that passes
      the test, which up to 131074 octets means a sum of 0xffff under RFC 1071 and a field that is not 0. */
  lemma {:induction false} EchoRequestIff(f: Frame, off: nat)
    requires LengthsOk(f) && off == 14 + f[14] % 16 * 4
    ensures EchoRequestOk(f) <==> |f| >= off + 8 && f[off] == 8 && Accepts(f[off..], 2)
    ensures |f| - off <= 131074 ==>
              (EchoRequestOk(f) <==>
                 && |f| >= off + 8 && f[off] == 8 && OnesSum(f[off..]) == 0xffff
                 && (f[off + 2] != 0 || f[off + 3] != 0))
  {
    if |f| >= off + 8 && |f| - off <= 131074 { AcceptsIffSumsToOnes(f[off..], 2); }
  }

  /** The copy with source and destination exchanged, TTL reset and header resealed. */
  function EchoHeader(f: Frame): (r: Frame)
    requires LengthsOk(f)
    ensures |r| == |f|
  {
    SealAt(Splice(Splice(f, 26, f[30..34] + f[26..30]), 22, [INIT_TTL]), 14, HeaderLen(f), 10)
  }

  function EchoReply(f: Frame): (r: Frame)
    requires LengthsOk(f) && |Icmp(f)| >= 8
    ensures |r| == |f|
  {
    var off := 14 + HeaderLen(f);
    SealAt(Splice(EchoHeader(f), off, [0, 0]), off, |f| - off, 2)
  }

  lemma {:induction false} EchoHeaderLayout(f: Frame)
    requires LengthsOk(f)
    ensures var r := EchoHeader(f);
            && r[22] == INIT_TTL && r[26..30] == f[30..34] && r[30..34] == f[26..30]
            && (forall i :: 0 <= i < |f| && i !in {22, 24, 25} && !(26 <= i < 34) ==> r[i] == f[i])
  {
    var g := Splice(f, 26, f[30..34] + f[26..30]);
    assert g[26..30] == f[30..34] && g[30..34] == f[26..30];
    assert EchoHeader(f)[26..30] == g[26..30] && EchoHeader(f)[30..34] == g[30..34];
  }

  lemma {:induction false} EchoBodyLayout(f: Frame)
    requires LengthsOk(f) && |Icmp(f)| >= 8
    ensures var r, h, off := EchoReply(f), EchoHeader(f), 14 + HeaderLen(f);
            && r[off] == 0 && r[off + 1] == 0
            && (forall i :: 0 <= i < |f| && !(off <= i < off + 4) ==> r[i] == h[i])
  {
  }

  /** An echo reply keeps the length and exchanges the addresses; past its type, code and
      checksum the ICMP message -- identifier, sequence number, payload -- is unchanged. */
  lemma {:induction false} EchoReplyLayout(f: Frame)
    requires LengthsOk(f) && |Icmp(f)| >= 8
    ensures var r := EchoReply(f);
            && LengthsOk(r) && HeaderLen(r) == HeaderLen(f)
            && Src(r) == Dst(f) && Dst(r) == Src(f) && r[22] == 255
            && Icmp(r)[..2] == [0, 0] && Icmp(r)[4..] == Icmp(f)[4..]
    ensures forall i :: 0 <= i < 14 + HeaderLen(f) && i !in {22, 24, 25} && !(26 <= i < 34) ==>
              EchoReply(f)[i] == f[i]
  {
    EchoHeaderLayout(f);
    EchoBodyLayout(f);
    var off, r, h := 14 + HeaderLen(f), EchoReply(f), EchoHeader(f);
    assert r[14] == f[14] && r[16] == f[16] && r[17] == f[17];
    assert r[26..30] == h[26..30] && r[30..34] == h[30..34];
    assert Icmp(r)[..2] == r[off..off + 2] == [0, 0];
    assert Icmp(r)[4..] == r[off + 4..] == f[off + 4..] == Icmp(f)[4..];
  }

  /** Both checksums of an echo reply verify, so the router would accept it itself. */
  lemma {:induction false} EchoReplySums(f: Frame)
    requires LengthsOk(f) && |Icmp(f)| >= 8
    ensures var r := EchoReply(f);
            && IpValid(r) && OnesSum(Header(r)) == 0xffff
            && Accepts(Icmp(r), 2)
            && (|Icmp(f)| <= 131074 ==> OnesSum(Icmp(r)) == 0xffff)
  {
    EchoReplyLayout(f);
    var off, r := 14 + HeaderLen(f), EchoReply(f);
    var g := Splice(Splice(f, 26, f[30..34] + f[26..30]), 22, [INIT_TTL]);
    assert Header(r) == Seal(g[14..off], 10);
    SealedIsAccepted(g[14..off], 10);
    var k := Splice(EchoHeader(f), off, [0, 0])[off..|f|];
    assert Icmp(r) == r[off..|f|] == Seal(k, 2);
    SealedIsAccepted(k, 2);
  }

  // ----- ICMP errors -----

  /** The 28 octets quoted from the offending packet. `beyond` stands for the memory after a
      buffer too short to hold them. */
  function Quote(orig: Frame, beyond: seq<byte>): (q: seq<byte>)
    requires |orig| >= 34 && |beyond| >= 8
    ensures |q| == 28
    ensures |orig| >= 42 ==> q == orig[14..42]
  {
    (orig[14..] + beyond)[..28]
  }

  function ErrorHeader(src: Ip, dst: Ip): (h: seq<byte>)
    ensures |h| == 20
  {
    Seal([0x45, 0, 0, 56, 0, 0, 0x40, 0, INIT_TTL, 1, 0, 0] + src + dst, 10)
  }

  function ErrorBody(kind: byte, code: byte, quote: seq<byte>): (d: seq<byte>)
    requires |quote| == 28
    ensures |d| == 36
  {
    Seal([kind, code, 0, 0, 0, 0, 0, 0] + quote, 2)
  }

  function IcmpError(kind: byte, code: byte, orig: Frame, src: Ip, beyond: seq<byte>): (r: Frame)
    requires |orig| >= 34 && |beyond| >= 8
    ensures |r| == 70 && Src(r) == src && Dst(r) == orig[26..30]
  {
    var r := Zeros(14) + ErrorHeader(src, Src(orig)) + ErrorBody(kind, code, Quote(orig, beyond));
    assert Src(r) == src && Dst(r) == orig[26..30];
    r
  }

  lemma {:induction false} ErrorHeaderSums(src: Ip, dst: Ip)
    ensures Accepts(ErrorHeader(src, dst), 10) && OnesSum(ErrorHeader(src, dst)) == 0xffff
  {
    SealedIsAccepted([0x45, 0, 0, 56, 0, 0, 0x40, 0, INIT_TTL, 1, 0, 0] + src + dst, 10);
  }

  lemma {:induction false} ErrorHeaderOctets(src: Ip, dst: Ip)
    ensures var h := ErrorHeader(src, dst);
            h[..10] == [0x45, 0, 0, 56, 0, 0, 0x40, 0, 255, 1] && h[12..16] == src && h[16..20] == dst
  {
  }

  lemma {:induction false} ErrorBodySums(kind: byte, code: byte, quote: seq<byte>)
    requires |quote| == 28
    ensures var d := ErrorBody(kind, code, quote);
            && Accepts(d, 2) && OnesSum(d) == 0xffff
            && d[0] == kind && d[1] == code && d[4..8] == [0, 0, 0, 0] && d[8..] == quote
  {
    SealedIsAccepted([kind, code, 0, 0, 0, 0, 0, 0] + quote, 2);
  }

  lemma {:induction false} IcmpErrorLayout(kind: byte, code: byte, orig: Frame, src: Ip, beyond: seq<byte>)
    requires |orig| >= 34 && |beyond| >= 8
    ensures var r := IcmpError(kind, code, orig, src, beyond);
            && LengthsOk(r) && HeaderLen(r) == 20
            && Header(r) == ErrorHeader(src, Src(orig))
            && Icmp(r) == ErrorBody(kind, code, Quote(orig, beyond))
  {
    var r := IcmpError(kind, code, orig, src, beyond);
    assert r[14] == 0x45 && r[16] == 0 && r[17] == 56;
    assert Header(r) == r[14..34] == ErrorHeader(src, Src(orig));
    assert Icmp(r) == r[34..];
  }

  /** Every ICMP error passes the router's own length and checksum tests, and both of its
      checksums verify under RFC 1071. */
  lemma {:induction false} IcmpErrorAccepted(kind: byte, code: byte, orig: Frame, src: Ip, beyond: seq<byte>)
    requires |orig| >= 34 && |beyond| >= 8
    ensures var r := IcmpError(kind, code, orig, src, beyond);
            && IpValid(r) && OnesSum(Header(r)) == 0xffff
            && Accepts(Icmp(r), 2) && OnesSum(Icmp(r)) == 0xffff
  {
    var r := IcmpError(kind, code, orig, src, beyond);
    IcmpErrorLayout(kind, code, orig, src, beyond);
    assert Accepts(Header(r), 10) && OnesSum(Header(r)) == 0xffff by {
      ErrorHeaderSums(src, Src(orig));
    }
    assert Accepts(Icmp(r), 2) && OnesSum(Icmp(r)) == 0xffff by {
      ErrorBodySums(kind, code, Quote(orig, beyond));
    }
  }

  /** Its octets: a header without options, 56 octets in all, not to be fragmented, with TTL 255, to the
      sender of the offending packet; the given type and code; four octets 0; and the first 28 octets of the
      offending packet, with what follows the buffer if it is shorter. */
  lemma {:induction false} IcmpErrorContent(kind: byte, code: byte, orig: Frame, src: Ip, beyond: seq<byte>)
    requires |orig| >= 34 && |beyond| >= 8
    ensures var r := IcmpError(kind, code, orig, src, beyond);
            && |r| == 70 && r[14..24] == [0x45, 0, 0, 56, 0, 0, 0x40, 0, 255, 1]
            && r[26..30] == src && r[30..34] == orig[26..30]
            && r[34] == kind && r[35] == code && r[38..42] == [0, 0, 0, 0]
            && r[42..] == (orig[14..] + beyond)[..28] && (|orig| >= 42 ==> r[42..] == orig[14..42])
  {
    var r := IcmpError(kind, code, orig, src, beyond);
    var h, d := ErrorHeader(src, Src(orig)), ErrorBody(kind, code, Quote(orig, beyond));
    ErrorHeaderOctets(src, Src(orig));
    ErrorBodySums(kind, code, Quote(orig, beyond));
    assert r[14..34] == h && r[34..] == d;
    assert r[14..24] == r[14..34][..10] && r[34] == d[0] && r[35] == d[1];
    assert r[38..42] == r[34..][4..8] && r[42..] == r[34..][8..];
  }

  // ----- ARP -----

  /** An Ethernet/IPv4 ARP frame. */
  function ArpFrame(dhost: Mac, op: byte, sha: Mac, sip: Ip, tha: Mac, tip: Ip): (r: Frame)
    ensures |r| == 42 && Shost(r) == sha && Dhost(r) == dhost
  {
    dhost + sha + [8, 6] + [0, 1, 8, 0, 6, 4, 0, op] + sha + sip + tha + tip
  }

  const BROADCAST: Mac := [255, 255, 255, 255, 255, 255]

  function ArpSha(f: Frame): (m: Mac)
    requires |f| >= 42
  {
    f[22..28]
  }

  function ArpSip(f: Frame): (ip: Ip)
    requires |f| >= 42
  {
    f[28..32]
  }

  function ArpTip(f: Frame): (ip: Ip)
    requires |f| >= 42
  {
    f[38..42]
  }

  /** The length and format tests of `handle_arp_packet`. */
  predicate ArpValid(f: Frame) {
    |f| >= 42 && Get16(f, 14) == 1 && Get16(f, 16) == 0x0800
  }

  function ArpOp(f: Frame): (op: int)
    requires |f| >= 42
  {
    Get16(f, 20)
  }

  /** In octets: an ARP frame for Ethernet and IPv4 with this operation. */
  predicate IsArp(f: Frame, op: byte) {
    |f| >= 42 && f[12..14] == [8, 6] && f[14..18] == [0, 1, 8, 0] && f[20..22] == [0, op]
  }

  lemma {:induction false} EthertypeIff(f: Frame, hi: byte, lo: byte)
    requires |f| >= 14
    ensures Ethertype(f) == hi as int * 256 + lo as int <==> f[12..14] == [hi, lo]
  {
    assert f[12..14] == [f[12], f[13]];
  }

  lemma {:induction false} ArpFormatIff(f: Frame, op: byte)
    ensures |f| >= 14 && Ethertype(f) == 0x0806 && ArpValid(f) && ArpOp(f) == op <==> IsArp(f, op)
  {
    if |f| >= 42 {
      EthertypeIff(f, 8, 6);
      assert f[14..18] == [f[14], f[15], f[16], f[17]] && f[20..22] == [f[20], f[21]];
    }
  }

  /** What the router emits parses back, under its own tests, to what it was built from. */
  lemma {:induction false} ArpFrameRoundTrip(dhost: Mac, op: byte, sha: Mac, sip: Ip, tha: Mac, tip: Ip)
    ensures var r := ArpFrame(dhost, op, sha, sip, tha, tip);
            && Ethertype(r) == 0x0806 && ArpValid(r) && ArpOp(r) == op
            && ArpSha(r) == sha && ArpSip(r) == sip && ArpTip(r) == tip
  {
    var r := ArpFrame(dhost, op, sha, sip, tha, tip);
    assert r[22..28] == sha && r[28..32] == sip && r[38..42] == tip;
  }

  // ----- the link layer -----

  /** `route_and_send` sets the source address and the type; the destination is filled in later. */
  function Stamp(f: Frame, mac: Mac): (r: Frame)
    requires |f| >= 34
    ensures |r| == |f| && Shost(r) == mac && r[14..] == f[14..] && Ethertype(r) == 0x0800
    ensures Src(r) == f[26..30] && Dst(r) == f[30..34]
  {
    var r := Splice(Splice(f, 6, mac), 12, [8, 0]);
    assert r[14..] == f[14..];
    assert r[6..12] == mac;
    assert Src(r) == f[26..30] && Dst(r) == f[30..34];
    r
  }

  /** The drain loop writes both addresses of a queued frame. */
  function Address(f: Frame, shost: Mac, dhost: Mac): (r: Frame)
    requires |f| >= 14
    ensures |r| == |f| && Shost(r) == shost && Dhost(r) == dhost && r[12..] == f[12..]
  {
    var r := Splice(Splice(f, 6, shost), 0, dhost);
    assert r[6..12] == shost && r[0..6] == dhost && r[12..] == f[12..];
    r
  }
}
