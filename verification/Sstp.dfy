/** SSTP packets and the crypto binding of Call Connected (sections 2.2.1 and 2.2.7 of [MS-SSTP]). */
module Sstp {
  import opened Bytes
  import PppOptions

  const MSG_CONNECTED := 4
  const ATTR_CRYPTO_BINDING: byte := 3

  // ---------------------------------------------------------------- packets

  datatype Packet = Packet(control: bool, body: seq<byte>)

  /** What writePacket puts on the wire; None is its size error. */
  function Write(p: Packet): Option<seq<byte>> {
    if 4 + |p.body| > 0x0fff then None
    else Some([0x10, if p.control then 1 else 0] + Put16(4 + |p.body|) + p.body)
  }

  datatype ReadResult = Got(p: Packet, rest: seq<byte>) | ShortRead | BadVersion | BadLength

  function Read(inp: seq<byte>): ReadResult {
    if |inp| < 4 then ShortRead
    else if inp[0] != 0x10 then BadVersion
    else
      var n := Get16(inp[2..]) % 0x1000;
      if n < 4 then BadLength
      else if |inp| < n then ShortRead
      else Got(Packet(inp[1] % 2 == 1, inp[4..n]), inp[n..])
  }

  /** writePacket's one buffer per packet, in the order the lock is taken. */
  function WriteAll(ps: seq<Packet>): Option<seq<byte>> {
    if ps == [] then Some([])
    else
      match (Write(ps[0]), WriteAll(ps[1..]))
      case (Some(b), Some(more)) => Some(b + more)
      case _ => None
  }

  function ReadMany(inp: seq<byte>, k: nat): Option<(seq<Packet>, seq<byte>)>
    decreases k
  {
    if k == 0 then Some(([], inp))
    else
      match Read(inp)
      case Got(p, rest) =>
        (match ReadMany(rest, k - 1)
         case None => None
         case Some((ps, end)) => Some(([p] + ps, end)))
      case _ => None
  }

  class Stream {
    var out: seq<byte>
    var inp: seq<byte>

    constructor (inp: seq<byte>)
      ensures this.inp == inp && out == []
    {
      this.inp, out := inp, [];
    }

    method WritePacket(control: bool, body: seq<byte>) returns (ok: bool)
      modifies this`out
      ensures ok <==> Write(Packet(control, body)).Some?
      ensures out == old(out) + if ok then Write(Packet(control, body)).value else []
    {
      var n := 4 + |body|;
      if n > 0x0fff { return false; }
      var b: seq<byte> := [0x10, 0];
      if control { b := b[1 := 1]; }
      b := b + Put16(n);
      b := b + body;
      out := out + b;
      ok := true;
    }

    method ReadPacket() returns (r: ReadResult)
      modifies this`inp
      ensures r == Read(old(inp))
      ensures r.Got? ==> inp == r.rest
    {
      if |inp| < 4 { return ShortRead; }
      var h := inp[..4];
      inp := inp[4..];
      if h[0] != 0x10 { return BadVersion; }
      assert Get16(h[2..]) == Get16(old(inp)[2..]);
      var n := Get16(h[2..]) % 0x1000;
      if n < 4 { return BadLength; }
      if |inp| < n - 4 { return ShortRead; }
      var body := inp[..n - 4];
      inp := inp[n - 4..];
      assert body == old(inp)[4..n] && inp == old(inp)[n..];
      return Got(Packet(h[1] % 2 == 1, body), inp);
    }
  }

  lemma PacketArrives(p: Packet, rest: seq<byte>)
    requires Write(p).Some?
    ensures Read(Write(p).value + rest) == Got(p, rest)
  {
    hide Put16, Get16;
    var n := 4 + |p.body|;
    var b := Write(p).value + rest;
    assert b[2..] == Put16(n) + (p.body + rest);
    Get16Put16(n, p.body + rest);
    assert b[4..n] == p.body && b[n..] == rest;
  }

  /** Any packets written in a row are read back one by one. */
  lemma {:induction false} AllArrive(ps: seq<Packet>, rest: seq<byte>)
    requires WriteAll(ps).Some?
    ensures ReadMany(WriteAll(ps).value + rest, |ps|) == Some((ps, rest))
    decreases |ps|
  {
    hide Write, Read;
    if ps == [] {
      assert WriteAll(ps).value + rest == rest;
    } else {
      var later := WriteAll(ps[1..]).value + rest;
      assert WriteAll(ps).value + rest == Write(ps[0]).value + later;
      PacketArrives(ps[0], later);
      AllArrive(ps[1..], rest);
      assert [ps[0]] + ps[1..] == ps;
    }
  }

  /** sendPPP: the body of a data packet. */
  function PppBody(proto: int, payload: seq<byte>): seq<byte> {
    [0xff, 0x03] + Put16(proto) + payload
  }

  /** A PPP frame sent over SSTP is split by the receiver into its protocol and payload. */
  lemma PppArrives(proto: int, payload: seq<byte>, rest: seq<byte>)
    requires 0 <= proto < TWO16 && (proto / 256) % 2 == 0 && |payload| <= 4087
    ensures var w := Write(Packet(false, PppBody(proto, payload)));
            && w.Some? && Read(w.value + rest) == Got(Packet(false, PppBody(proto, payload)), rest)
            && PppOptions.SplitPPP(PppBody(proto, payload)) == Some((proto, payload))
  {
    var p := Packet(false, PppBody(proto, payload));
    PacketArrives(p, rest);
    assert p.body[2..] == Put16(proto) + payload;
    Get16Put16(proto, payload);
    assert p.body[2..][2..] == payload;
  }

  // ---------------------------------------------------------------- Call Connected

  /** The hash and HMAC of one hash choice: SHA-256 for protocol 2, SHA-1 otherwise. */
  datatype Hashing = Hashing(size: byte, digest: seq<byte> -> seq<byte>, mac: (seq<byte>, seq<byte>) -> seq<byte>)

  function Attr(id: byte, value: seq<byte>): seq<byte> { [0, id] + Put16(4 + |value|) + value }

  function Control(msgType: int, attrs: seq<seq<byte>>): seq<byte> {
    Put16(msgType) + Put16(|attrs|) + Join(attrs)
  }

  /** "SSTP inner method derived CMK". */
  const SEED: seq<byte> := [83, 83, 84, 80, 32, 105, 110, 110, 101, 114, 32, 109, 101, 116, 104, 111, 100, 32,
                            100, 101, 114, 105, 118, 101, 100, 32, 67, 77, 75]

  function Choose(sha256: Hashing, sha1: Hashing, hashProto: byte): Hashing {
    if hashProto == 2 then sha256 else sha1
  }

  function CompoundKey(h: Hashing, hlak: Option<seq<byte>>): seq<byte> {
    h.mac(if hlak.Some? then hlak.value else Zeros(32), SEED + [h.size, 0, 1])
  }

  /** The attribute value before the MAC is filled in: reserved, protocol, nonce, certificate hash, zeros. */
  function Binding(h: Hashing, hashProto: byte, nonce: seq<byte>, cert: seq<byte>): (v: seq<byte>)
    ensures |v| == 100
  {
    CopyInto(CopyInto(Zeros(100)[3 := hashProto], 4, 36, nonce), 36, 68, h.digest(cert))
  }

  function Message(v: seq<byte>): seq<byte> { Control(MSG_CONNECTED, [Attr(ATTR_CRYPTO_BINDING, v)]) }

  /** The packet the MAC is computed over. */
  function Authenticated(v: seq<byte>): seq<byte> {
    [0x10, 1] + Put16(4 + |Message(v)|) + Message(v)
  }

  function CallConnected(sha256: Hashing, sha1: Hashing, hashProto: byte, nonce: seq<byte>, cert: seq<byte>,
                         hlak: Option<seq<byte>>): seq<byte>
  {
    var h := Choose(sha256, sha1, hashProto);
    var v := Binding(h, hashProto, nonce, cert);
    Message(CopyInto(v, 68, 100, h.mac(CompoundKey(h, hlak), Authenticated(v))))
  }

  /** callConnected: one buffer, filled, authenticated, and overwritten with the MAC. */
  method BuildCallConnected(sha256: Hashing, sha1: Hashing, hashProto: byte, nonce: seq<byte>, cert: seq<byte>,
                            hlak: Option<seq<byte>>) returns (b: seq<byte>)
    ensures b == CallConnected(sha256, sha1, hashProto, nonce, cert, hlak)
  {
    hide CopyInto;
    var h := sha1;
    if hashProto == 2 { h := sha256; }
    var v := Zeros(100);
    v := v[3 := hashProto];
    v := CopyInto(v, 4, 36, nonce);
    v := CopyInto(v, 36, 68, h.digest(cert));
    var msg := Control(MSG_CONNECTED, [Attr(ATTR_CRYPTO_BINDING, v)]);
    var pkt := [0x10, 1] + Put16(4 + |msg|) + msg;
    var key := if hlak.Some? then hlak.value else Zeros(32);
    var cmk := h.mac(key, SEED + [h.size, 0, 1]);
    v := CopyInto(v, 68, 100, h.mac(cmk, pkt));
    b := Control(MSG_CONNECTED, [Attr(ATTR_CRYPTO_BINDING, v)]);
  }

  // ---------------------------------------------------------------- what the server checks

  const MAC_AT := 80

  /** A packet with its 32-byte MAC field zeroed. */
  function ZeroMac(pkt: seq<byte>): seq<byte>
    requires |pkt| == 112
  {
    pkt[..MAC_AT] + Zeros(32)
  }

  /** A MAC laid out in the 32-byte field. */
  function Field(mac: seq<byte>): (f: seq<byte>)
    ensures |f| == 32
  {
    CopyInto(Zeros(32), 0, 32, mac)
  }

  lemma MessageBytes(v: seq<byte>)
    requires |v| == 100
    ensures Message(v) == [0, 4, 0, 1, 0, 3, 0, 104] + v
  {
    assert Join([Attr(ATTR_CRYPTO_BINDING, v)]) == Attr(ATTR_CRYPTO_BINDING, v) + Join([]);
    assert Put16(104) == [0, 104];
  }

  lemma SentBytes(v: seq<byte>)
    requires |v| == 100
    ensures |Message(v)| == 108 && |Authenticated(v)| == 112
    ensures Write(Packet(true, Message(v))) == Some(Authenticated(v))
    ensures Authenticated(v)[12..] == v
    ensures Authenticated(v)[..12] == [0x10, 1, 0, 112, 0, 4, 0, 1, 0, 3, 0, 104]
  {
    MessageBytes(v);
    assert Put16(112) == [0, 112];
  }

  /** The MAC goes into the last field and nowhere else. */
  lemma MacField(v: seq<byte>, mac: seq<byte>)
    requires |v| == 100 && v[68..] == Zeros(32)
    ensures |Authenticated(CopyInto(v, 68, 100, mac))| == 112
    ensures var w := CopyInto(v, 68, 100, mac);
            w[..68] == v[..68] && w[68..] == Field(mac) && ZeroMac(Authenticated(w)) == Authenticated(v)
  {
    var w := CopyInto(v, 68, 100, mac);
    SentBytes(v);
    SentBytes(w);
    var n := if |mac| < 32 then |mac| else 32;
    assert w[68..] == mac[..n] + v[68 + n..];
    assert v[68 + n..] == v[68..][n..] == Zeros(32)[n..];
    var a, b := Authenticated(w), Authenticated(v);
    assert a[..12] == b[..12];
    assert a[12..80] == a[12..][..68] == b[12..][..68] == b[12..80];
    assert b[80..] == b[12..][68..] == Zeros(32);
    assert a[..80] == a[..12] + a[12..80] && b == b[..12] + b[12..80] + b[80..];
  }

  function Ascii(s: string): (b: seq<byte>)
    ensures |b| == |s|
  {
    seq(|s|, i requires 0 <= i < |s| => s[i] as int % 256)
  }

  lemma SeedIsAscii()
    ensures SEED == Ascii("SSTP inner method derived CMK")
  {
  }

  /**
    The packet that is authenticated is the packet writePacket sends with only the MAC field
    zeroed, and that field holds the MAC of exactly those bytes: a server that zeroes the field
    and recomputes the MAC agrees, for either hash.
    */
  lemma ServerAgrees(sha256: Hashing, sha1: Hashing, hashProto: byte, nonce: seq<byte>, cert: seq<byte>,
                     hlak: Option<seq<byte>>)
    ensures var h := if hashProto == 2 then sha256 else sha1;
            var sent := Write(Packet(true, CallConnected(sha256, sha1, hashProto, nonce, cert, hlak)));
            var secret := if hlak.Some? then hlak.value else Zeros(32);
            var cmk := h.mac(secret, Ascii("SSTP inner method derived CMK") + [h.size, 0, 1]);
            && sent.Some? && |sent.value| == 112
            && ZeroMac(sent.value) == Authenticated(Binding(h, hashProto, nonce, cert))
            && sent.value[80..] == Field(h.mac(cmk, ZeroMac(sent.value)))
  {
    SeedIsAscii();
    assert CompoundKey(Choose(sha256, sha1, hashProto), hlak)
           == Choose(sha256, sha1, hashProto).mac(if hlak.Some? then hlak.value else Zeros(32),
                SEED + [Choose(sha256, sha1, hashProto).size, 0, 1]);
    hide Authenticated, Message, Write, CompoundKey, Ascii;
    var h := Choose(sha256, sha1, hashProto);
    var v := Binding(h, hashProto, nonce, cert);
    assert v[68..] == Zeros(32) by {
      assert v[68..] == CopyInto(Zeros(100)[3 := hashProto], 4, 36, nonce)[68..] == Zeros(100)[68..];
    }
    var mac := h.mac(CompoundKey(h, hlak), Authenticated(v));
    var w := CopyInto(v, 68, 100, mac);
    MacField(v, mac);
    SentBytes(w);
    assert Authenticated(w)[80..] == Authenticated(w)[12..][68..];
  }

  /** The fields of the sent packet: type, attribute, hash protocol, nonce and certificate hash. */
  lemma BindingFields(sha256: Hashing, sha1: Hashing, hashProto: byte, nonce: seq<byte>, cert: seq<byte>,
                      hlak: Option<seq<byte>>)
    requires |nonce| == 32 && |Choose(sha256, sha1, hashProto).digest(cert)| <= 32
    ensures var h := Choose(sha256, sha1, hashProto);
            var b := CallConnected(sha256, sha1, hashProto, nonce, cert, hlak);
            && |b| == 108 && b[..8] == [0, 4, 0, 1, 0, 3, 0, 104] && b[8..12] == [0, 0, 0, hashProto]
            && b[12..44] == nonce && b[44..44 + |h.digest(cert)|] == h.digest(cert)
  {
    hide CompoundKey, Authenticated;
    var h := Choose(sha256, sha1, hashProto);
    var v := Binding(h, hashProto, nonce, cert);
    var w := CopyInto(v, 68, 100, h.mac(CompoundKey(h, hlak), Authenticated(v)));
    MessageBytes(w);
    assert w[..68] == v[..68];
    var d := h.digest(cert);
    assert v[..4] == [0, 0, 0, hashProto] && v[4..36] == nonce && v[36..36 + |d|] == d;
    var b := Message(w);
    assert b[8..76] == w[..68];
    assert b[8..12] == b[8..76][..4] && b[12..44] == b[8..76][4..36] && b[44..44 + |d|] == b[8..76][36..36 + |d|];
    assert v[..68][..4] == v[..4] && v[..68][4..36] == v[4..36] && v[..68][36..36 + |d|] == v[36..36 + |d|];
  }

  /** writePacket refuses exactly what does not fit the 12-bit length. */
  lemma WriteExactly(p: Packet)
    ensures Write(p).Some? <==> |p.body| <= 4091
    ensures Write(p).Some? ==>
              var n := 4 + |p.body|;
              Write(p).value == [0x10, if p.control then 1 else 0, n / 256, n % 256] + p.body
  {
  }

  /** readPacket takes exactly the packets of version 1.0; the control bit is one bit, the length twelve. */
  lemma ReadExactly(inp: seq<byte>, p: Packet, rest: seq<byte>)
    ensures Read(inp) == Got(p, rest) <==>
            && |inp| >= 4 && inp[0] == 0x10 && p.control == (inp[1] % 2 == 1)
            && inp[2] % 16 * 256 + inp[3] as int == 4 + |p.body| && inp[4..] == p.body + rest
    ensures Read(inp) == BadVersion <==> |inp| >= 4 && inp[0] != 0x10
    ensures Read(inp) == BadLength <==> |inp| >= 4 && inp[0] == 0x10 && inp[2] % 16 == 0 && inp[3] < 4
  {
    if |inp| >= 4 {
      assert Get16(inp[2..]) % 0x1000 == inp[2] % 16 * 256 + inp[3] as int by { TwelveBits(inp[2], inp[3]); }
      var n := Get16(inp[2..]) % 0x1000;
      if 4 <= n <= |inp| {
        assert inp[4..] == inp[4..n] + inp[n..];
        if inp[4..] == p.body + rest && n == 4 + |p.body| {
          assert inp[4..n] == p.body && inp[n..] == rest by {
            assert inp[4..][..n - 4] == p.body && inp[4..][n - 4..] == rest;
          }
        }
      }
      if inp[4..] == p.body + rest { assert |inp| == 4 + |p.body| + |rest|; }
    }
  }

  lemma TwelveBits(a: byte, b: byte)
    ensures (256 * (a as int) + b as int) % 0x1000 == a % 16 * 256 + b as int
  {
    assert 256 * (a as int) + b as int == 0x1000 * (a / 16) + (a % 16 * 256 + b as int);
  }
}
