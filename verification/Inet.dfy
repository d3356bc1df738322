/** Ethernet, ARP, IPv4 and UDP packet building, and the Internet checksum (RFC 1071). */
module Inet {
  import opened Bytes

  type Mac = s: seq<byte> | |s| == 6 witness [0, 0, 0, 0, 0, 0]
  type Addr = s: seq<byte> | |s| == 4 witness [0, 0, 0, 0]

  const BROADCAST_MAC: Mac := [0xff, 0xff, 0xff, 0xff, 0xff, 0xff]
  const BROADCAST_ADDR: Addr := [255, 255, 255, 255]
  const ZERO_ADDR: Addr := [0, 0, 0, 0]
  const ETH_ARP := 0x0806
  const ETH_IPV4 := 0x0800

  function EthFrame(dst: Mac, src: Mac, typ: int, payload: seq<byte>): (f: seq<byte>)
    ensures |f| == 14 + |payload|
  {
    dst + src + Put16(typ) + payload
  }

  function ArpPacket(op: int, sha: Mac, spa: Addr, tha: Mac, tpa: Addr): (p: seq<byte>)
    ensures |p| == 28
  {
    Put16(1) + Put16(ETH_IPV4) + [6, 4] + Put16(op) + sha + spa + tha + tpa
  }

  /** The parts of a built frame, as a receiver slices them. */
  lemma EthFrameParts(dst: Mac, src: Mac, typ: int, payload: seq<byte>, trailer: seq<byte>)
    requires 0 <= typ < TWO16
    ensures var f := EthFrame(dst, src, typ, payload) + trailer;
            f[..6] == dst && f[6..12] == src && Get16(f[12..]) == typ && f[14..] == payload + trailer
  {
    var f := EthFrame(dst, src, typ, payload) + trailer;
    assert f[12..] == Put16(typ) + (payload + trailer);
    Get16Put16(typ, payload + trailer);
  }

  /** The fields of a built ARP packet, as a receiver slices them. */
  lemma ArpPacketParts(op: int, sha: Mac, spa: Addr, tha: Mac, tpa: Addr)
    requires 0 <= op < TWO16
    ensures var p := ArpPacket(op, sha, spa, tha, tpa);
            && Get16(p[2..]) == ETH_IPV4 && Get16(p[6..]) == op
            && p[8..14] == sha && p[14..18] == spa && p[18..24] == tha && p[24..28] == tpa
  {
    var p := ArpPacket(op, sha, spa, tha, tpa);
    assert p[2..] == Put16(ETH_IPV4) + p[4..];
    Get16Put16(ETH_IPV4, p[4..]);
    assert p[6..] == Put16(op) + p[8..];
    Get16Put16(op, p[8..]);
  }

  // ---------------------------------------------------------------- the Internet checksum

  /** The sum of the 16-bit words, an odd last byte counting as the high half. */
  function WordSum(b: seq<byte>): (s: int)
    ensures 0 <= s <= 65535 * ((|b| + 1) / 2)
  {
    if |b| == 0 then 0
    else if |b| == 1 then (b[0] as int) * 256
    else
      assert (|b| + 1) / 2 == (|b[2..]| + 1) / 2 + 1;
      Get16(b) + WordSum(b[2..])
  }

  /** The one's-complement value of a sum: its residue mod 65535, with 65535 for a non-zero multiple. */
  function OnesValue(s: int): (r: int)
    requires 0 <= s
    ensures 0 <= r <= 65535
  {
    if s == 0 then 0 else 1 + (s - 1) % 65535
  }

  /** Unsigned 32-bit wrap-around. */
  function Wrap32(n: int): (r: int)
    ensures 0 <= r < TWO32
  {
    n % TWO32
  }

  /** What ipChecksum returns, with its 32-bit accumulator. */
  function Checksum(b: seq<byte>): (c: int)
    ensures 0 <= c <= 65535
  {
    65535 - OnesValue(Wrap32(WordSum(b)))
  }

  lemma WordSumFrom(b: seq<byte>, i: nat)
    requires i + 1 < |b|
    ensures WordSum(b[i..]) == Get16(b[i..]) + WordSum(b[i + 2..])
  {
    assert b[i..][2..] == b[i + 2..];
  }

  lemma WordSumEnds(b: seq<byte>)
    requires |b| <= 1
    ensures WordSum(b) == if b == [] then 0 else (b[0] as int) * 256
  {
  }

  /** The two adding statements of ipChecksum. */
  method SumWords(b: seq<byte>) returns (s: int)
    ensures s == Wrap32(WordSum(b))
  {
    hide Get16, Wrap32, WordSum;
    s := Wrap32(0);
    WrapAdd(0, WordSum(b));
    WrapAdd(0, 0);
    assert b[0..] == b;
    var i := 0;
    while i + 1 < |b|
      invariant 0 <= i <= |b| && i % 2 == 0
      invariant s == Wrap32(s)
      invariant Wrap32(s + WordSum(b[i..])) == Wrap32(WordSum(b))
    {
      var w := Get16(b[i..]);
      WordSumFrom(b, i);
      WrapAdd(s + w, WordSum(b[i + 2..]));
      WrapAdd(s + w, 0);
      s := Wrap32(s + w);
      i := i + 2;
    }
    if |b| % 2 == 1 {
      var w := (b[|b| - 1] as int) * 256;
      WordSumEnds(b[i..]);
      s := Wrap32(s + w);
    }
  }

  /** The folding loop of ipChecksum. */
  method FoldSum(s0: int) returns (s: int)
    requires 0 <= s0 < TWO32
    ensures s == OnesValue(s0)
  {
    s := s0;
    while s / TWO16 != 0
      invariant 0 <= s < TWO32
      invariant OnesValue(s) == OnesValue(s0)
      decreases s
    {
      FoldKeeps(s);
      s := Wrap32(s % TWO16 + s / TWO16);
    }
  }

  method IpChecksum(b: seq<byte>) returns (c: int)
    ensures c == Checksum(b)
  {
    var s := SumWords(b);
    s := FoldSum(s);
    c := 65535 - s;
  }

  /** Wrapping early does not change a wrapped sum. */
  lemma WrapAdd(n: int, rest: int)
    ensures Wrap32(Wrap32(n) + rest) == Wrap32(n + rest)
  {
    assert n + rest == (n % TWO32 + rest) + n / TWO32 * TWO32;
  }

  /** One folding step keeps the one's-complement value and shrinks the sum. */
  lemma FoldKeeps(s: int)
    requires TWO16 <= s < TWO32
    ensures var s' := s % TWO16 + s / TWO16;
            0 < s' < s && OnesValue(s') == OnesValue(s)
  {
    var h, l := s / TWO16, s % TWO16;
    assert s == 65535 * h + (h + l);
  }

  /** The accumulator cannot wrap on buffers of up to 2^17 bytes. */
  lemma SumFits(b: seq<byte>)
    requires |b| <= 0x2_0000
    ensures WordSum(b) < TWO32
  {
  }

  lemma {:induction false} WordSumConcat(a: seq<byte>, b: seq<byte>)
    requires |a| % 2 == 0
    ensures WordSum(a + b) == WordSum(a) + WordSum(b)
  {
    if a == [] {
      assert a + b == b;
    } else {
      assert (a + b)[2..] == a[2..] + b;
      WordSumConcat(a[2..], b);
    }
  }

  /** The buffer with a 16-bit word written at i. */
  function StoreWord(b: seq<byte>, i: int, w: int): (r: seq<byte>)
    requires 0 <= i && i + 2 <= |b|
    ensures |r| == |b|
  {
    b[..i] + Put16(w) + b[i + 2..]
  }

  lemma WordSumAround(pre: seq<byte>, x: seq<byte>, post: seq<byte>)
    requires |pre| % 2 == 0 && |x| == 2
    ensures WordSum(pre + x + post) == WordSum(pre) + Get16(x) + WordSum(post)
  {
    hide WordSum, Get16;
    assert pre + x + post == pre + (x + post);
    WordSumConcat(pre, x + post);
    WordSumConcat(x, post);
    WordOf(x);
  }

  lemma StoreWordSum(b: seq<byte>, i: int, w: int)
    requires 0 <= i && i + 2 <= |b| && i % 2 == 0 && b[i] == 0 && b[i + 1] == 0 && 0 <= w < TWO16
    ensures WordSum(StoreWord(b, i, w)) == WordSum(b) + w
  {
    hide WordSum, Put16, Get16;
    Around(b, i);
    WordReplaced(b[..i], b[i..i + 2], b[i + 2..], w);
  }

  lemma Around(b: seq<byte>, i: int)
    requires 0 <= i && i + 2 <= |b|
    ensures b == b[..i] + b[i..i + 2] + b[i + 2..]
    ensures b[i..i + 2][0] == b[i] && b[i..i + 2][1] == b[i + 1]
  {
  }

  lemma WordReplaced(pre: seq<byte>, x: seq<byte>, post: seq<byte>, w: int)
    requires |pre| % 2 == 0 && |x| == 2 && x[0] == 0 && x[1] == 0 && 0 <= w < TWO16
    ensures WordSum(pre + Put16(w) + post) == WordSum(pre + x + post) + w
  {
    hide WordSum, Put16, Get16;
    WordSumAround(pre, x, post);
    WordSumAround(pre, Put16(w), post);
    ZeroWord(x);
    PutAlone(w);
  }

  lemma PutAlone(w: int)
    requires 0 <= w < TWO16
    ensures Get16(Put16(w)) == w
  {
    assert Put16(w) + [] == Put16(w);
    Get16Put16(w, []);
  }

  lemma ZeroWord(b: seq<byte>)
    requires |b| == 2 && b[0] == 0 && b[1] == 0
    ensures Get16(b) == 0
  {
  }

  lemma WordOf(b: seq<byte>)
    requires |b| == 2
    ensures WordSum(b) == Get16(b)
  {
    assert WordSum(b[2..]) == 0;
  }

  /** Completing a sum with the complement of its value gives a non-zero multiple of 65535. */
  lemma ComplementCancels(s: int)
    requires 0 <= s
    ensures OnesValue(s + (65535 - OnesValue(s))) == 65535
  {
    if s > 0 {
      var k := (s - 1) / 65535;
      assert s + (65535 - OnesValue(s)) == 65535 * (k + 1);
    }
  }

  /** Storing the checksum of a buffer in its zeroed checksum word makes the buffer verify. */
  lemma ChecksumVerifies(b: seq<byte>, i: int)
    requires |b| <= 0x2_0000 && 0 <= i && i + 2 <= |b| && i % 2 == 0 && b[i] == 0 && b[i + 1] == 0
    ensures Checksum(StoreWord(b, i, Checksum(b))) == 0
  {
    hide WordSum, OnesValue, StoreWord;
    var r := StoreWord(b, i, Checksum(b));
    SumFits(b);
    SumFits(r);
    StoreWordSum(b, i, Checksum(b));
    ComplementCancels(WordSum(b));
  }

  // ---------------------------------------------------------------- IPv4 and UDP

  function IpHeader(total: int, src: Addr, dst: Addr, check: int): (h: seq<byte>)
    ensures |h| == 20
  {
    [0x45, 0] + Put16(total) + [0, 0, 0, 0, 64, 17] + Put16(check) + src + dst
  }

  function UdpIPv4(src: Addr, dst: Addr, sport: int, dport: int, payload: seq<byte>): (p: seq<byte>)
    ensures |p| == 28 + |payload|
  {
    IpHeader(28 + |payload|, src, dst, Checksum(IpHeader(28 + |payload|, src, dst, 0)))
    + Put16(sport) + Put16(dport) + Put16(8 + |payload|) + [0, 0] + payload
  }

  /** Every built header verifies at the receiver. */
  lemma UdpHeaderVerifies(src: Addr, dst: Addr, sport: int, dport: int, payload: seq<byte>)
    ensures Checksum(UdpIPv4(src, dst, sport, dport, payload)[..20]) == 0
  {
    var h := IpHeader(28 + |payload|, src, dst, 0);
    ChecksumVerifies(h, 10);
    assert StoreWord(h, 10, Checksum(h)) == IpHeader(28 + |payload|, src, dst, Checksum(h));
    assert UdpIPv4(src, dst, sport, dport, payload)[..20] == IpHeader(28 + |payload|, src, dst, Checksum(h));
  }

  /** The fields of a built packet, byte by byte, as RFC 791 and RFC 768 lay them out. */
  lemma UdpFields(src: Addr, dst: Addr, sport: int, dport: int, payload: seq<byte>)
    requires 0 <= sport < TWO16 && 0 <= dport < TWO16 && |payload| <= 65507
    ensures var u := UdpIPv4(src, dst, sport, dport, payload);
            var total, len := 28 + |payload|, 8 + |payload|;
            && u[..10] == [0x45, 0, total / 256, total % 256, 0, 0, 0, 0, 64, 17]
            && u[12..16] == src && u[16..20] == dst
            && u[20..28] == [sport / 256, sport % 256, dport / 256, dport % 256, len / 256, len % 256, 0, 0]
            && u[28..] == payload
  {
    hide Checksum;
  }

  /** An odd buffer sums like the buffer padded with a zero. */
  lemma {:induction false} OddIsPadded(b: seq<byte>)
    requires |b| % 2 == 1
    ensures WordSum(b) == WordSum(b + [0])
  {
    if |b| == 1 {
      assert (b + [0])[2..] == [];
    } else {
      assert (b + [0])[2..] == b[2..] + [0];
      OddIsPadded(b[2..]);
    }
  }
}
