/**
  Any number of ports on one hub.  A frame once sent stays in the air, and any port may be
  handed any frame in the air at any time, so frames can be lost, duplicated and reordered.
  */
module ArpHub {
  import opened Bytes
  import opened Inet
  import opened SeLink

  datatype Hub = Hub(ports: seq<Port>, air: set<seq<byte>>)

  datatype Step =
    | Send(i: nat, dst: Addr, pkt: seq<byte>, now: int)   // sendIP on port i
    | Raw(i: nat, to: Mac, pkt: seq<byte>)                // the port's own IPv4 traffic, such as DHCP
    | Deliver(i: nat, f: seq<byte>)                       // port i is handed a frame from the air

  function Members(fs: seq<seq<byte>>): set<seq<byte>> {
    set f | f in fs
  }

  function Next(h: Hub, st: Step): Hub {
    if st.i >= |h.ports| then h
    else
      match st
      case Send(i, dst, pkt, now) =>
        var (p, out) := SendIP(h.ports[i], dst, pkt, now);
        Hub(h.ports[i := p], h.air + Members(out))
      case Raw(i, to, pkt) => h.(air := h.air + {EthFrame(to, h.ports[i].mac, ETH_IPV4, pkt)})
      case Deliver(i, f) =>
        if f !in h.air then h
        else
          var (p, out) := HandleFrame(h.ports[i], f);
          Hub(h.ports[i := p], h.air + Members(out))
  }

  function Run(h: Hub, steps: seq<Step>): Hub {
    if steps == [] then h else Next(Run(h, steps[..|steps| - 1]), steps[|steps| - 1])
  }

  /** Who holds which address: fixed for the whole run. */
  function Identities(h: Hub): seq<(Option<Addr>, Mac)> {
    seq(|h.ports|, i requires 0 <= i < |h.ports| => (h.ports[i].lease.addr, h.ports[i].mac))
  }

  ghost predicate Distinct(h: Hub) {
    && (forall i :: 0 <= i < |h.ports| ==> h.ports[i].lease.addr.Some? && h.ports[i].mac != BROADCAST_MAC)
    && (forall i, j :: 0 <= i < j < |h.ports| ==>
         h.ports[i].lease.addr != h.ports[j].lease.addr && h.ports[i].mac != h.ports[j].mac)
  }

  ghost predicate Init(h: Hub) {
    && Distinct(h) && h.air == {}
    && forall i :: 0 <= i < |h.ports| ==> h.ports[i].arp == map[]
  }

  ghost predicate Holds(ids: seq<(Option<Addr>, Mac)>, a: Addr, m: Mac) {
    exists j :: 0 <= j < |ids| && ids[j] == (Some(a), m)
  }

  /** An ARP frame names, as its sender, a port with that port's own address. */
  ghost predicate Genuine(ids: seq<(Option<Addr>, Mac)>, f: seq<byte>) {
    |f| >= 14 && Get16(f[12..]) == ETH_ARP ==> |f| >= 42 && Holds(ids, f[28..32], f[22..28])
  }

  ghost predicate CacheTrue(ids: seq<(Option<Addr>, Mac)>, p: Port) {
    forall a :: a in p.arp ==> Holds(ids, a, p.arp[a])
  }

  ghost predicate Inv(ids: seq<(Option<Addr>, Mac)>, h: Hub) {
    && Identities(h) == ids
    && (forall i :: 0 <= i < |ids| ==> ids[i].0.Some?)
    && (forall f :: f in h.air ==> Genuine(ids, f))
    && (forall i :: 0 <= i < |h.ports| ==> CacheTrue(ids, h.ports[i]))
  }

  // ---------------------------------------------------------------- what one port does

  lemma ArpFrameGenuine(ids: seq<(Option<Addr>, Mac)>, dst: Mac, m: Mac, op: int, a: Addr, tha: Mac, tpa: Addr)
    requires Holds(ids, a, m) && 0 <= op < TWO16
    ensures Genuine(ids, EthFrame(dst, m, ETH_ARP, ArpPacket(op, m, a, tha, tpa)))
  {
    var p := ArpPacket(op, m, a, tha, tpa);
    var f := EthFrame(dst, m, ETH_ARP, p);
    ArpPacketParts(op, m, a, tha, tpa);
    assert f + [] == f;
    EthFrameParts(dst, m, ETH_ARP, p, []);
    assert f[28..32] == f[14..][14..18] == a && f[22..28] == f[14..][8..14] == m;
  }

  lemma Ipv4FrameGenuine(ids: seq<(Option<Addr>, Mac)>, dst: Mac, m: Mac, pkt: seq<byte>)
    ensures Genuine(ids, EthFrame(dst, m, ETH_IPV4, pkt))
  {
    var f := EthFrame(dst, m, ETH_IPV4, pkt);
    assert f + [] == f;
    EthFrameParts(dst, m, ETH_IPV4, pkt, []);
  }

  lemma SendKeeps(ids: seq<(Option<Addr>, Mac)>, p: Port, dst: Addr, pkt: seq<byte>, now: int)
    requires p.lease.addr.Some? && Holds(ids, p.lease.addr.value, p.mac)
    ensures var (p', out) := SendIP(p, dst, pkt, now);
            && p'.mac == p.mac && p'.lease == p.lease && p'.arp == p.arp
            && forall f :: f in out ==> Genuine(ids, f)
  {
    hide Genuine, EthFrame, ArpPacket, InPrefix;
    var next := NextHop(p.lease, dst);
    ArpFrameGenuine(ids, BROADCAST_MAC, p.mac, 1, p.lease.addr.value, Zeros(6), next);
    Ipv4FrameGenuine(ids, BROADCAST_MAC, p.mac, pkt);
    if next in p.arp { Ipv4FrameGenuine(ids, p.arp[next], p.mac, pkt); }
  }

  lemma HandleKeeps(ids: seq<(Option<Addr>, Mac)>, p: Port, f: seq<byte>)
    requires p.lease.addr.Some? && Holds(ids, p.lease.addr.value, p.mac)
    requires CacheTrue(ids, p) && Genuine(ids, f)
    ensures var (p', out) := HandleFrame(p, f);
            && p'.mac == p.mac && p'.lease == p.lease && CacheTrue(ids, p')
            && forall g :: g in out ==> Genuine(ids, g)
  {
    hide Holds, EthFrame, ArpPacket;
    if |f| >= 42 && Get16(f[12..]) == ETH_ARP {
      var payload := f[14..];
      assert payload[8..14] == f[22..28] && payload[14..18] == f[28..32];
      ArpFrameGenuine(ids, payload[8..14], p.mac, 2, p.lease.addr.value, payload[8..14], payload[14..18]);
    }
  }

  // ---------------------------------------------------------------- every run

  lemma HolderOf(ids: seq<(Option<Addr>, Mac)>, h: Hub, i: nat)
    requires Inv(ids, h) && i < |h.ports|
    ensures h.ports[i].lease.addr.Some? && Holds(ids, h.ports[i].lease.addr.value, h.ports[i].mac)
  {
    assert ids[i] == (h.ports[i].lease.addr, h.ports[i].mac);
  }

  lemma NextKeeps(ids: seq<(Option<Addr>, Mac)>, h: Hub, st: Step)
    requires Inv(ids, h)
    ensures Inv(ids, Next(h, st))
  {
    hide Genuine, CacheTrue, Holds, SendIP, HandleFrame, EthFrame;
    if st.i < |h.ports| {
      var p := h.ports[st.i];
      HolderOf(ids, h, st.i);
      match st {
        case Send(i, dst, pkt, now) =>
          SendKeeps(ids, p, dst, pkt, now);
          SameCache(ids, p, SendIP(p, dst, pkt, now).0);
          assert Identities(Next(h, st)) == ids;
        case Raw(i, to, pkt) =>
          Ipv4FrameGenuine(ids, to, p.mac, pkt);
          assert Identities(Next(h, st)) == ids;
        case Deliver(i, f) =>
          if f in h.air {
            HandleKeeps(ids, p, f);
            assert Identities(Next(h, st)) == ids;
          }
      }
    }
  }

  lemma SameCache(ids: seq<(Option<Addr>, Mac)>, p: Port, q: Port)
    requires p.arp == q.arp
    ensures CacheTrue(ids, p) <==> CacheTrue(ids, q)
  {
  }

  lemma {:induction false} RunKeeps(h: Hub, steps: seq<Step>)
    requires Init(h)
    ensures Inv(Identities(h), Run(h, steps))
  {
    hide Next, Genuine;
    if steps != [] {
      RunKeeps(h, steps[..|steps| - 1]);
      NextKeeps(Identities(h), Run(h, steps[..|steps| - 1]), steps[|steps| - 1]);
    }
  }

  /** In every run, a cached address maps to the hardware address of the port that holds it. */
  lemma CachesNeverLie(h: Hub, steps: seq<Step>, i: nat, a: Addr)
    requires Init(h) && i < |Run(h, steps).ports| && a in Run(h, steps).ports[i].arp
    ensures exists j :: 0 <= j < |h.ports| && h.ports[j].lease.addr == Some(a)
                        && h.ports[j].mac == Run(h, steps).ports[i].arp[a]
  {
    hide Run, Genuine;
    RunKeeps(h, steps);
    var ids := Identities(h);
    assert CacheTrue(ids, Run(h, steps).ports[i]);
    var j :| 0 <= j < |ids| && ids[j] == (Some(a), Run(h, steps).ports[i].arp[a]);
    assert ids[j] == (h.ports[j].lease.addr, h.ports[j].mac);
  }

  /**
    In every run, a packet sent towards a cached next hop leaves in one frame addressed to
    the port holding that next hop, and every other port ignores that frame.
    */
  lemma UnicastReachesHolder(h: Hub, steps: seq<Step>, i: nat, dst: Addr, pkt: seq<byte>, now: int) returns (j: nat)
    requires Init(h) && i < |Run(h, steps).ports| && dst != BROADCAST_ADDR
    requires NextHop(Run(h, steps).ports[i].lease, dst) in Run(h, steps).ports[i].arp
    ensures j < |h.ports| == |Run(h, steps).ports|
    ensures var p := Run(h, steps).ports[i];
            && h.ports[j].lease.addr == Some(NextHop(p.lease, dst))
            && SendIP(p, dst, pkt, now) == (p, [EthFrame(h.ports[j].mac, p.mac, ETH_IPV4, pkt)])
    ensures forall k :: 0 <= k < |h.ports| && k != j ==>
              var q := Run(h, steps).ports[k];
              HandleFrame(q, EthFrame(h.ports[j].mac, Run(h, steps).ports[i].mac, ETH_IPV4, pkt)) == (q, [])
  {
    hide Run, Genuine, InPrefix;
    var g := Run(h, steps);
    var p := g.ports[i];
    var a := NextHop(p.lease, dst);
    RunKeeps(h, steps);
    CachesNeverLie(h, steps, i, a);
    j :| 0 <= j < |h.ports| && h.ports[j].lease.addr == Some(a) && h.ports[j].mac == p.arp[a];
    assert |Identities(h)| == |h.ports|;
    forall k | 0 <= k < |h.ports| && k != j
      ensures HandleFrame(g.ports[k], EthFrame(h.ports[j].mac, p.mac, ETH_IPV4, pkt)) == (g.ports[k], [])
    {
      assert Identities(g)[k] == Identities(h)[k];
      assert EthFrame(h.ports[j].mac, p.mac, ETH_IPV4, pkt)[..6] == h.ports[j].mac;
    }
  }

  // ---------------------------------------------------------------- resolution

  /** The request for an address, as its holder sees it: the asker is cached and answered. */
  lemma RequestAnswered(q: Port, m: Mac, a: Addr, mine: Addr)
    requires q.lease.addr == Some(mine) && a != ZERO_ADDR
    ensures HandleFrame(q, EthFrame(BROADCAST_MAC, m, ETH_ARP, ArpPacket(1, m, a, Zeros(6), mine)))
            == (q.(arp := q.arp[a := m]), [EthFrame(m, q.mac, ETH_ARP, ArpPacket(2, q.mac, mine, m, a))])
  {
    hide ArpPacket, EthFrame;
    var pkt := ArpPacket(1, m, a, Zeros(6), mine);
    var f := EthFrame(BROADCAST_MAC, m, ETH_ARP, pkt);
    ArpPacketParts(1, m, a, Zeros(6), mine);
    assert f + [] == f && pkt + [] == pkt;
    EthFrameParts(BROADCAST_MAC, m, ETH_ARP, pkt, []);
  }

  /** The answer, as the asker sees it: the holder is cached. */
  lemma AnswerCached(p: Port, m: Mac, a: Addr, mine: Addr)
    requires p.lease.addr == Some(mine) && a != ZERO_ADDR
    ensures HandleFrame(p, EthFrame(p.mac, m, ETH_ARP, ArpPacket(2, m, a, p.mac, mine)))
            == (p.(arp := p.arp[a := m]), [])
  {
    hide ArpPacket, EthFrame;
    var pkt := ArpPacket(2, m, a, p.mac, mine);
    var f := EthFrame(p.mac, m, ETH_ARP, pkt);
    ArpPacketParts(2, m, a, p.mac, mine);
    assert f + [] == f && pkt + [] == pkt;
    EthFrameParts(p.mac, m, ETH_ARP, pkt, []);
  }

  /**
    A packet to an unknown next hop, not asked for within the last second, turns into a request;
    once the holder has heard it and the asker its answer, both know each other and the packet,
    sent again, goes straight to the holder.
    */
  lemma ResolutionCompletes(p: Port, q: Port, mine: Addr, dst: Addr, pkt: seq<byte>, now: int)
    requires p.lease.addr == Some(mine) && mine != ZERO_ADDR && dst != BROADCAST_ADDR
    requires var next := NextHop(p.lease, dst);
             next != ZERO_ADDR && q.lease.addr == Some(next) && next !in p.arp
             && (next in p.arpAsk ==> now - p.arpAsk[next] > 1000)
    ensures var next := NextHop(p.lease, dst);
            var (p1, asked) := SendIP(p, dst, pkt, now);
            && |asked| == 1
            && var (q1, answered) := HandleFrame(q, asked[0]);
               && |answered| == 1 && mine in q1.arp && q1.arp[mine] == p.mac
               && var (p2, nothing) := HandleFrame(p1, answered[0]);
                  && nothing == [] && next in p2.arp && p2.arp[next] == q.mac
                  && SendIP(p2, dst, pkt, now) == (p2, [EthFrame(q.mac, p.mac, ETH_IPV4, pkt)])
  {
    hide ArpPacket, EthFrame, HandleFrame, InPrefix;
    var next := NextHop(p.lease, dst);
    RequestAnswered(q, p.mac, mine, next);
    var p1 := SendIP(p, dst, pkt, now).0;
    AnswerCached(p1, q.mac, next, mine);
  }
}
