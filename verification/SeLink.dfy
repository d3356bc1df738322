/** The client's port on a SoftEther Virtual Hub: next-hop choice, ARP cache and frame reception. */
module SeLink {
  import opened Bytes
  import opened Inet

  /** The lease fields the port consults. */
  datatype Lease = Lease(addr: Option<Addr>, router: Option<Addr>, prefix: int)

  /** The mutable state of a port, as a value. */
  datatype Port = Port(mac: Mac, lease: Lease, arp: map<Addr, Mac>, arpAsk: map<Addr, int>,
                       inbox: seq<seq<byte>>, capacity: nat, dev: Option<seq<seq<byte>>>)

  /** netip.Prefix.Contains for IPv4; an invalid prefix contains nothing. */
  predicate InPrefix(lease: Lease, dst: Addr) {
    && lease.addr.Some? && 0 <= lease.prefix <= 32
    && Get32(lease.addr.value) / Pow2(32 - lease.prefix) == Get32(dst) / Pow2(32 - lease.prefix)
  }

  function NextHop(lease: Lease, dst: Addr): Addr {
    if !InPrefix(lease, dst) && lease.router.Some? then lease.router.value else dst
  }

  /** The address written into ARP packets; the program sends nothing before it has one. */
  function Own(lease: Lease): Addr {
    if lease.addr.Some? then lease.addr.value else ZERO_ADDR
  }

  /** sendIP: the new state and the frames put on the wire; times are in milliseconds. */
  function SendIP(p: Port, dst: Addr, pkt: seq<byte>, now: int): (Port, seq<seq<byte>>) {
    var next := NextHop(p.lease, dst);
    if dst == BROADCAST_ADDR then (p, [EthFrame(BROADCAST_MAC, p.mac, ETH_IPV4, pkt)])
    else if next in p.arp then (p, [EthFrame(p.arp[next], p.mac, ETH_IPV4, pkt)])
    else if next !in p.arpAsk || now - p.arpAsk[next] > 1000 then
      (p.(arpAsk := p.arpAsk[next := now]),
       [EthFrame(BROADCAST_MAC, p.mac, ETH_ARP, ArpPacket(1, p.mac, Own(p.lease), Zeros(6), next))])
    else (p, [])
  }

  function HandleArp(p: Port, payload: seq<byte>): (Port, seq<seq<byte>>) {
    if |payload| < 28 || Get16(payload[2..]) != ETH_IPV4 then (p, [])
    else
      var op := Get16(payload[6..]);
      var sha: Mac := payload[8..14];
      var spa: Addr := payload[14..18];
      var tpa: Addr := payload[24..28];
      (if spa != ZERO_ADDR then p.(arp := p.arp[spa := sha]) else p,
       if op == 1 && p.lease.addr == Some(tpa)
       then [EthFrame(sha, p.mac, ETH_ARP, ArpPacket(2, p.mac, tpa, sha, spa))] else [])
  }

  function HandleIPv4(p: Port, payload: seq<byte>): Port {
    if |payload| < 20 || payload[0] / 16 != 4 then p
    else
      var total := Get16(payload[2..]);
      if total < 20 || total > |payload| then p
      else
        var pkt := payload[..total];
        var ihl := (pkt[0] % 16) * 4;
        if pkt[9] == 17 && |pkt| >= ihl + 8 && Get16(pkt[ihl + 2..]) == 68 then
          (if |p.inbox| < p.capacity then p.(inbox := p.inbox + [pkt[ihl + 8..]]) else p)
        else if p.dev.Some? then p.(dev := Some(p.dev.value + [pkt]))
        else p
  }

  /** handleFrame: the new state and the frames put on the wire. */
  function HandleFrame(p: Port, f: seq<byte>): (Port, seq<seq<byte>>) {
    if |f| < 14 || (f[..6] != p.mac && f[..6] != BROADCAST_MAC) then (p, [])
    else if Get16(f[12..]) == ETH_ARP then HandleArp(p, f[14..])
    else if Get16(f[12..]) == ETH_IPV4 then (HandleIPv4(p, f[14..]), [])
    else (p, [])
  }

  /** seLink, with its session reduced to the list of frames written. */
  class Link {
    const mac: Mac
    const capacity: nat
    var lease: Lease
    var arp: map<Addr, Mac>
    var arpAsk: map<Addr, int>
    var dhcpCh: seq<seq<byte>>
    var dev: Option<seq<seq<byte>>>
    var wire: seq<seq<byte>>

    constructor (mac: Mac, lease: Lease, capacity: nat, dev: Option<seq<seq<byte>>>)
      ensures View() == Port(mac, lease, map[], map[], [], capacity, dev) && wire == []
    {
      this.mac, this.capacity, this.lease, this.dev := mac, capacity, lease, dev;
      arp, arpAsk, dhcpCh, wire := map[], map[], [], [];
    }

    ghost function View(): Port
      reads this
    {
      Port(mac, lease, arp, arpAsk, dhcpCh, capacity, dev)
    }

    method Transmit(f: seq<byte>)
      modifies this`wire
      ensures wire == old(wire) + [f]
    {
      wire := wire + [f];
    }

    method SendPacket(dst: Addr, pkt: seq<byte>, now: int)
      modifies this`arpAsk, this`wire
      ensures View() == SendIP(old(View()), dst, pkt, now).0
      ensures wire == old(wire) + SendIP(old(View()), dst, pkt, now).1
    {
      var next := dst;
      if !InPrefix(lease, dst) && lease.router.Some? {
        next := lease.router.value;
      }
      if dst == BROADCAST_ADDR {
        Transmit(EthFrame(BROADCAST_MAC, mac, ETH_IPV4, pkt));
        return;
      }
      var ok := next in arp;
      var ask := !ok && (next !in arpAsk || now - arpAsk[next] > 1000);
      if ask { arpAsk := arpAsk[next := now]; }
      if ok {
        Transmit(EthFrame(arp[next], mac, ETH_IPV4, pkt));
      } else if ask {
        Transmit(EthFrame(BROADCAST_MAC, mac, ETH_ARP, ArpPacket(1, mac, Own(lease), Zeros(6), next)));
      }
    }

    method ReceiveFrame(f: seq<byte>)
      modifies this`arp, this`dhcpCh, this`dev, this`wire
      ensures View() == HandleFrame(old(View()), f).0
      ensures wire == old(wire) + HandleFrame(old(View()), f).1
    {
      if |f| < 14 || (f[..6] != mac && f[..6] != BROADCAST_MAC) { return; }
      var payload := f[14..];
      if Get16(f[12..]) == ETH_ARP {
        if |payload| < 28 || Get16(payload[2..]) != ETH_IPV4 { return; }
        var op := Get16(payload[6..]);
        var sha: Mac := payload[8..14];
        var spa: Addr, tpa: Addr := payload[14..18], payload[24..28];
        if spa != ZERO_ADDR { arp := arp[spa := sha]; }
        if op == 1 && lease.addr == Some(tpa) {
          Transmit(EthFrame(sha, mac, ETH_ARP, ArpPacket(2, mac, lease.addr.value, sha, spa)));
        }
      } else if Get16(f[12..]) == ETH_IPV4 {
        if |payload| < 20 || payload[0] / 16 != 4 { return; }
        var total := Get16(payload[2..]);
        if total < 20 || total > |payload| { return; }
        payload := payload[..total];
        var ihl := (payload[0] % 16) * 4;
        if payload[9] == 17 && |payload| >= ihl + 8 && Get16(payload[ihl + 2..]) == 68 {
          if |dhcpCh| < capacity { dhcpCh := dhcpCh + [payload[ihl + 8..]]; }
          return;
        }
        if dev.Some? { dev := Some(dev.value + [payload]); }
      }
    }
  }

  /**
    A UDP datagram to port 68, wrapped and padded by any Ethernet trailer, reaches the
    DHCP channel byte for byte when there is room, and nothing else changes.
    */
  lemma DhcpDelivered(p: Port, dst: Mac, hw: Mac, src: Addr, to: Addr, sport: int,
                      m: seq<byte>, trailer: seq<byte>)
    requires dst == p.mac || dst == BROADCAST_MAC
    requires |m| <= 65507 && |p.inbox| < p.capacity
    ensures HandleFrame(p, EthFrame(dst, hw, ETH_IPV4, UdpIPv4(src, to, sport, 68, m)) + trailer)
            == (p.(inbox := p.inbox + [m]), [])
  {
    var u := UdpIPv4(src, to, sport, 68, m);
    EthFrameParts(dst, hw, ETH_IPV4, u, trailer);
    UdpParts(src, to, sport, m, trailer);
  }

  lemma UdpParts(src: Addr, to: Addr, sport: int, m: seq<byte>, trailer: seq<byte>)
    requires |m| <= 65507
    ensures var b := UdpIPv4(src, to, sport, 68, m) + trailer;
            && b[0] == 0x45 && Get16(b[2..]) == 28 + |m| && b[9] == 17
            && Get16(b[..28 + |m|][22..]) == 68 && b[..28 + |m|][28..] == m
  {
    hide Checksum;
    var u := UdpIPv4(src, to, sport, 68, m);
    var b := u + trailer;
    assert b[2..] == Put16(28 + |m|) + b[4..];
    Get16Put16(28 + |m|, b[4..]);
    assert b[..28 + |m|] == u;
    assert u[22..] == Put16(68) + u[24..];
    Get16Put16(68, u[24..]);
    assert u[28..] == m;
  }

  // ---------------------------------------------------------------- who a packet is sent through

  /** Bit j of an address, counted from the front. */
  predicate AddrBit(a: Addr, j: nat)
    requires j < 32
  {
    Bit(a[j / 8], 7 - j % 8)
  }

  /** The prefix is a usable one and its bits are the same in both addresses. */
  ghost predicate OnLink(lease: Lease, dst: Addr) {
    && lease.addr.Some? && 0 <= lease.prefix <= 32
    && forall j: nat :: j < lease.prefix ==> AddrBit(dst, j) == AddrBit(lease.addr.value, j)
  }

  lemma PrefixIsOnLink(lease: Lease, dst: Addr)
    ensures InPrefix(lease, dst) <==> OnLink(lease, dst)
  {
    hide Get32, Bit;
    if lease.addr.Some? && 0 <= lease.prefix <= 32 {
      var a, m := lease.addr.value, 32 - lease.prefix;
      Powers();
      HighBits(Get32(a), Get32(dst), m, 32);
      forall j: nat | j < 32
        ensures AddrBit(a, j) == Bit(Get32(a), 31 - j) && AddrBit(dst, j) == Bit(Get32(dst), 31 - j)
      {
        Bit32(a, j);
        Bit32(dst, j);
      }
      if OnLink(lease, dst) {
        forall j: nat | m <= j < 32
          ensures Bit(Get32(a), j) == Bit(Get32(dst), j)
        {
          assert AddrBit(dst, 31 - j) == AddrBit(a, 31 - j);
        }
      }
      if AgreeFrom(Get32(a), Get32(dst), m, 32) {
        forall j: nat | j < lease.prefix
          ensures AddrBit(dst, j) == AddrBit(a, j)
        {
          assert Bit(Get32(a), 31 - j) == Bit(Get32(dst), 31 - j);
        }
      }
    }
  }

  /**
    A packet for an address on the link goes to that address, any other through the router if there
    is one: in a frame to its cached hardware address, or else, at most once a second, a broadcast
    ARP request asks for it.  The limited broadcast goes to everyone.
    */
  lemma RoutedThrough(p: Port, dst: Addr, pkt: seq<byte>, now: int)
    ensures var via := if OnLink(p.lease, dst) || p.lease.router.None? then dst else p.lease.router.value;
            var own := if p.lease.addr.Some? then p.lease.addr.value else [0, 0, 0, 0];
            var everyone := [255, 255, 255, 255, 255, 255];
            var (p', wire) := SendIP(p, dst, pkt, now);
            if dst == [255, 255, 255, 255] then
              p' == p && wire == [everyone + p.mac + [8, 0] + pkt]
            else if via in p.arp then
              p' == p && wire == [p.arp[via] + p.mac + [8, 0] + pkt]
            else if via in p.arpAsk && now - p.arpAsk[via] <= 1000 then
              p' == p && wire == []
            else
              && p' == p.(arpAsk := p.arpAsk[via := now])
              && wire == [everyone + p.mac + [8, 6] + ([0, 1, 8, 0, 6, 4, 0, 1] + p.mac + own + Zeros(6) + via)]
  {
    hide InPrefix, OnLink;
    PrefixIsOnLink(p.lease, dst);
    assert Put16(0x0800) == [8, 0] && Put16(0x0806) == [8, 6] && Put16(1) == [0, 1];
    var next := NextHop(p.lease, dst);
    assert ArpPacket(1, p.mac, Own(p.lease), Zeros(6), next)
           == [0, 1, 8, 0, 6, 4, 0, 1] + p.mac + Own(p.lease) + Zeros(6) + next;
  }

  // ---------------------------------------------------------------- what is handed on

  /** A UDP datagram for the DHCP client. */
  predicate ForDhcp(pkt: seq<byte>)
    requires |pkt| >= 20
  {
    var ihl := pkt[0] % 16 * 4;
    pkt[9] == 17 && |pkt| >= ihl + 8 && pkt[ihl + 2] == 0 && pkt[ihl + 3] == 68
  }

  /**
    Any other IPv4 packet addressed to the port reaches the tun device cut to its total length, if
    there is a device, and nothing else changes.
    */
  lemma OthersReachTun(p: Port, dst: Mac, hw: Mac, pkt: seq<byte>, trailer: seq<byte>)
    requires dst == p.mac || dst == [255, 255, 255, 255, 255, 255]
    requires |pkt| >= 20 && pkt[0] / 16 == 4 && 256 * (pkt[2] as int) + pkt[3] as int == |pkt| && !ForDhcp(pkt)
    ensures HandleFrame(p, dst + hw + [8, 0] + pkt + trailer)
            == (if p.dev.Some? then p.(dev := Some(p.dev.value + [pkt])) else p, [])
  {
    var f := EthFrame(dst, hw, 0x0800, pkt) + trailer;
    assert Put16(0x0800) == [8, 0];
    assert f == dst + hw + [8, 0] + pkt + trailer;
    EthFrameParts(dst, hw, 0x0800, pkt, trailer);
    var b := pkt + trailer;
    assert b[..|pkt|] == pkt && b[2..][0] == pkt[2] && b[2..][1] == pkt[3];
    var ihl := pkt[0] % 16 * 4;
    if |pkt| >= ihl + 8 {
      assert pkt[ihl + 2..][0] == pkt[ihl + 2] && pkt[ihl + 2..][1] == pkt[ihl + 3];
    }
  }

  /** A full DHCP channel drops the datagram, and nothing changes. */
  lemma FullInboxDrops(p: Port, dst: Mac, hw: Mac, pkt: seq<byte>, trailer: seq<byte>)
    requires dst == p.mac || dst == [255, 255, 255, 255, 255, 255]
    requires |pkt| >= 20 && pkt[0] / 16 == 4 && 256 * (pkt[2] as int) + pkt[3] as int == |pkt| && ForDhcp(pkt)
    requires |p.inbox| >= p.capacity
    ensures HandleFrame(p, dst + hw + [8, 0] + pkt + trailer) == (p, [])
  {
    var f := EthFrame(dst, hw, 0x0800, pkt) + trailer;
    assert Put16(0x0800) == [8, 0];
    assert f == dst + hw + [8, 0] + pkt + trailer;
    EthFrameParts(dst, hw, 0x0800, pkt, trailer);
    var b := pkt + trailer;
    assert b[..|pkt|] == pkt && b[2..][0] == pkt[2] && b[2..][1] == pkt[3];
    var ihl := pkt[0] % 16 * 4;
    assert pkt[ihl + 2..][0] == pkt[ihl + 2] && pkt[ihl + 2..][1] == pkt[ihl + 3];
  }

  /** A frame for another port is ignored, and so is one too short to have a type. */
  lemma OthersIgnored(p: Port, f: seq<byte>)
    requires |f| < 14 || (f[..6] != p.mac && f[..6] != [255, 255, 255, 255, 255, 255])
    ensures HandleFrame(p, f) == (p, [])
  {
  }
}
