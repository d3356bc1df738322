/** What the client puts on the wire and when it gives up, in the bytes and numbers of RFC 1661, 1332 and 2759. */
module PppWire {
  import opened Bytes
  import opened PppOptions
  import opened Ppp
  import opened PppSafety
  import PppConvergence

  /** A control packet: code, identifier, length and data. */
  lemma CpBytes(code: byte, id: byte, data: seq<byte>)
    ensures var n := 4 + |data|; Cp(code, id, data) == [code, id, n / 256 % 256, n % 256] + data
  {
  }

  lemma OneOption(x: Opt)
    requires |x.v| <= 253
    ensures Pack([x]) == [x.t, 2 + |x.v|] + x.v
  {
    assert [x][1..] == [];
    assert [x.t, 2 + |x.v|] + x.v + [] == [x.t, 2 + |x.v|] + x.v;
  }

  lemma MoreOptions(x: Opt, o: seq<Opt>)
    requires |x.v| <= 253
    ensures Pack([x] + o) == [x.t, 2 + |x.v|] + x.v + Pack(o)
  {
    assert ([x] + o)[1..] == o;
  }

  /** The first request: an MRU and the magic number. */
  lemma FirstLcpRequest(c: Config, bootOk: bool)
    requires |c.magic| == 4
    ensures var mru := if c.mtu <= 0 then 1400 else c.mtu;
            Boot(c, bootOk).t == [Sent(0xc021, [1, 2, 0, 14, 1, 4, mru / 256 % 256, mru % 256, 5, 6] + c.magic)]
  {
    hide Pack, Cp;
    var o := Start(c).lcpOurs;
    OneOption(o[1]);
    MoreOptions(o[0], [o[1]]);
    assert o == [o[0]] + [o[1]];
    CpBytes(1, 2, Pack(o));
    var m := o[0].v;
    assert Pack(o) == [1, 4, m[0], m[1], 5, 6] + c.magic;
    assert Cp(1, 2, Pack(o)) == [1, 2, 0, 14, 1, 4, m[0], m[1], 5, 6] + c.magic;
  }

  lemma ZeroOption(t: byte, o: seq<Opt>)
    ensures Pack([Opt(t, Zeros(4))] + o) == [t, 6, 0, 0, 0, 0] + Pack(o)
  {
    hide Pack;
    MoreOptions(Opt(t, Zeros(4)), o);
    assert Zeros(4) == [0, 0, 0, 0];
  }

  /** The first IPCP request asks for an address and two servers. */
  lemma FirstIpcpRequest(c: Config)
    ensures IpcpReq(Start(c)) ==
            Sent(0x8021, [1, 3, 0, 22, 3, 6, 0, 0, 0, 0, 129, 6, 0, 0, 0, 0, 131, 6, 0, 0, 0, 0])
  {
    hide Pack, Cp;
    StartAsks(c);
    ThreeZeros(Start(c).ipcpOurs);
    IpcpBytes();
  }

  lemma StartAsks(c: Config)
    ensures Start(c).ipcpOurs == [Opt(3, Zeros(4)), Opt(129, Zeros(4)), Opt(131, Zeros(4))] && Start(c).ipcpID == 3
  {
  }

  lemma IpcpBytes()
    ensures Cp(1, 3, [3, 6, 0, 0, 0, 0, 129, 6, 0, 0, 0, 0, 131, 6, 0, 0, 0, 0])
            == [1, 3, 0, 22, 3, 6, 0, 0, 0, 0, 129, 6, 0, 0, 0, 0, 131, 6, 0, 0, 0, 0]
  {
  }

  lemma ThreeZeros(o: seq<Opt>)
    requires o == [Opt(3, Zeros(4)), Opt(129, Zeros(4)), Opt(131, Zeros(4))]
    ensures Pack(o) == [3, 6, 0, 0, 0, 0, 129, 6, 0, 0, 0, 0, 131, 6, 0, 0, 0, 0]
  {
    hide Pack, Zeros;
    assert o == [o[0]] + ([o[1]] + ([o[2]] + []));
    assert Pack([]) == [] by { NothingPacked(); }
    ZeroOption(131, []);
    ZeroOption(129, [o[2]] + []);
    ZeroOption(3, [o[1]] + ([o[2]] + []));
  }

  lemma NothingPacked()
    ensures Pack([]) == []
  {
  }

  /** An Echo-Request is answered with its identifier and our magic number. */
  lemma EchoAnswered(c: Config, s: State, t: seq<Item>, f: seq<byte>, p: Packet)
    requires Decode(f) == Some(p) && p.proto == 0xc021 && p.code == 9 && |c.magic| == 4
    ensures OnEvent(c, s, t, Frame(f))
            == Conf(Running(s), t + [Got(Frame(f))] + [Sent(0xc021, [10, p.id, 0, 8] + c.magic)])
  {
    hide Decode;
    CpBytes(10, p.id, c.magic);
  }

  /** A Terminate-Request is acked, and ends the negotiation. */
  lemma TerminateAnswered(c: Config, s: State, t: seq<Item>, f: seq<byte>, p: Packet)
    requires Decode(f) == Some(p) && p.proto == 0xc021 && p.code == 5
    ensures OnEvent(c, s, t, Frame(f))
            == Conf(Failed(Terminated), t + [Got(Frame(f))] + [Sent(0xc021, [6, p.id, 0, 4])])
  {
    hide Decode;
    CpBytes(6, p.id, []);
    assert Cp(6, p.id, []) == [6, p.id, 0, 4];
  }

  /** Any other protocol is rejected under the next identifier, with its number and its whole payload. */
  lemma UnknownRejected(c: Config, s: State, t: seq<Item>, f: seq<byte>, p: Packet)
    requires Decode(f) == Some(p) && p.proto !in {0xc021, 0xc023, 0xc223, 0x8021} && |p.body| <= 65529
    ensures var id := if s.id == 255 then 0 else s.id + 1;
            var n := 6 + |p.body|;
            OnEvent(c, s, t, Frame(f)) ==
            Conf(Running(s.(id := id)),
                 t + [Got(Frame(f))]
                 + [Sent(0xc021, [8, id, n / 256, n % 256, p.proto / 256 % 256, p.proto % 256] + p.body)])
  {
    hide Decode;
    var id := NextID(s.id);
    CpBytes(8, id, Put16(p.proto) + p.body);
    var n := 6 + |p.body|;
    assert Cp(8, id, Put16(p.proto) + p.body)
           == [8, id, n / 256, n % 256, p.proto / 256 % 256, p.proto % 256] + p.body;
  }

  /** A challenge is answered with the peer challenge, eight zeros, the NT response to it, a zero flag and the name. */
  lemma ChallengeAnswered(c: Config, s: State, t: seq<Item>, f: seq<byte>, p: Packet)
    requires Decode(f) == Some(p) && p.proto == 0xc223 && p.code == 1 && |p.data| >= 17 && p.data[0] == 16
    requires |c.peerChal| == 16 && |c.crypto.ntResponse(p.data[1..17])| == 24 && |c.user| <= 65000
    ensures var n := 54 + |c.user|;
            var nt := c.crypto.ntResponse(p.data[1..17]);
            var g := OnEvent(c, s, t, Frame(f));
            && g.t == t + [Got(Frame(f))] + [Sent(0xc223, [2, p.id, n / 256, n % 256, 49] + c.peerChal + Zeros(8) + nt
                                                       + [0] + c.user)]
            && g.st == Running(s.(authProto := 0xc223, authChal := p.data[1..17], nt := nt))
  {
    hide Decode;
    var nt := c.crypto.ntResponse(p.data[1..17]);
    ResponseFields(c, nt);
    var r := ChapResponse(c, nt);
    CpBytes(2, p.id, r);
    var n := 54 + |c.user|;
    assert Cp(2, p.id, r) == [2, p.id, n / 256, n % 256, 49] + c.peerChal + Zeros(8) + nt + [0] + c.user;
  }

  /** All options but addresses, in order. */
  function NoAddresses(o: seq<Opt>): seq<Opt> {
    if o == [] then [] else (if o[0].t == 3 then [] else [o[0]]) + NoAddresses(o[1..])
  }

  lemma {:induction false} NoAddressesSnoc(o: seq<Opt>, x: Opt)
    ensures NoAddresses(o + [x]) == NoAddresses(o) + if x.t == 3 then [] else [x]
  {
    var all := o + [x];
    var r := if x.t == 3 then [] else [x];
    if o == [] {
      assert all == [x] && all[1..] == [];
      assert NoAddresses(all) == r + [];
    } else {
      assert all[1..] == o[1..] + [x] && all[0] == o[0];
      NoAddressesSnoc(o[1..], x);
      Regroup(if o[0].t == 3 then [] else [o[0]], NoAddresses(o[1..]), r);
    }
  }

  lemma {:induction false} NotAddrIs(o: seq<Opt>)
    ensures NotAddr(o) == NoAddresses(o)
  {
    if o != [] {
      var init, x := o[..|o| - 1], o[|o| - 1];
      assert o == init + [x];
      NotAddrIs(init);
      NoAddressesSnoc(init, x);
    }
  }

  /** An IPCP request is acked if it carries addresses only; otherwise exactly the other options are rejected. */
  lemma IpcpRequestAnswered(c: Config, s: State, t: seq<Item>, f: seq<byte>, p: Packet)
    requires Decode(f) == Some(p) && p.proto == 0x8021 && p.code == 1 && Parse(p.data).Some?
    ensures var no := NoAddresses(Parse(p.data).value);
            OnEvent(c, s, t, Frame(f)) ==
            if no == [] then
              Conf(Running(s.(ipcpPeerOK := true)), t + [Got(Frame(f))] + [Sent(0x8021, Cp(2, p.id, p.data))])
            else
              Conf(Running(s), t + [Got(Frame(f))] + [Sent(0x8021, Cp(4, p.id, Pack(no)))])
  {
    hide Decode, Parse, Pack, NotAddr, NoAddresses;
    NotAddrIs(Parse(p.data).value);
  }

  /** Why a packet ends the negotiation, if it does. */
  ghost function Ending(c: Config, s: State, p: Packet): Option<Failure> {
    if p.proto == 0xc021 then (if p.code == 5 then Some(Terminated) else None)
    else if p.proto == 0xc023 then (if p.id == s.papID && p.code == 3 then Some(PapRefused) else None)
    else if p.proto == 0xc223 then
      match p.code
      case 1 => if |p.data| >= 17 && p.data[0] == 16 then None else Some(BadChallenge)
      case 3 => if c.crypto.proves(s.nt, s.authChal, p.data) then None else Some(BadProof)
      case 4 => Some(ChapRefused)
      case _ => None
    else if p.proto == 0x8021 && p.code == 4 && p.id == s.ipcpID && PppConvergence.Names(Lenient(p.data), 3)
    then Some(AddressRejected)
    else None
  }

  lemma ShapeIsDistinct(o: seq<Opt>)
    requires Shape(o)
    ensures PppConvergence.DistinctTypes(o) && PppConvergence.Names(o, IPCP_ADDR)
  {
  }

  /** A frame ends the negotiation exactly for these reasons, in every state a run reaches. */
  lemma EndsExactly(c: Config, bootOk: bool, ins: seq<Input>, calls: Calls, f: seq<byte>)
    requires var g := Run(c, bootOk, ins); g.st.Running? && Head(c, g.st.s, g.t, calls).st.Running?
    ensures var g := Run(c, bootOk, ins);
            var h := Head(c, g.st.s, g.t, calls);
            var st := Round(c, g, Input(calls, Frame(f))).st;
            match Decode(f)
            case None => st == h.st
            case Some(p) => if Ending(c, h.st.s, p).Some? then st == Failed(Ending(c, h.st.s, p).value) else st.Running?
  {
    hide Run, Head, Decode, OnLcp, OnPap, OnChap, OnIpcp, OnOther, Inv, TraceOk, LinkOk, Ending;
    RunGood(c, bootOk, ins);
    var g := Run(c, bootOk, ins);
    HeadKeeps(c, g.st.s, g.t, calls);
    var h := Head(c, g.st.s, g.t, calls);
    InvShape(c, h.st.s, h.t);
    if Decode(f).Some? { PacketEnds(c, h.st.s, h.t + [Got(Frame(f))], Decode(f).value); }
  }

  lemma InvShape(c: Config, s: State, t: seq<Item>)
    requires Inv(c, s, t)
    ensures Shape(s.ipcpOurs)
  {
  }

  lemma PacketEnds(c: Config, s: State, t: seq<Item>, p: Packet)
    requires Shape(s.ipcpOurs)
    ensures var st := OnPacket(c, s, t, p).st;
            if Ending(c, s, p).Some? then st == Failed(Ending(c, s, p).value) else st.Running?
  {
    hide Pack, Parse, Scan, RewriteLcp, RewriteIpcp, NotAddr, ChapResponse, Cp, PppConvergence.Names, Shape, Lenient,
         PppConvergence.DistinctTypes;
    if p.proto == IPCP && p.id == s.ipcpID {
      ShapeIsDistinct(s.ipcpOurs);
      if p.code == CONF_REJ {
        PppConvergence.IpcpRejectObeyed(s.ipcpOurs, Lenient(p.data));
      } else if p.code == CONF_NAK {
        PppConvergence.IpcpNakObeyed(s.ipcpOurs, Lenient(p.data));
      }
    }
  }

  // ---------------------------------------------------------------- refusals of our requests

  /** An LCP refusal of the current request draws the amended one under the next identifier; an older one nothing. */
  lemma LcpRefusalAnswered(c: Config, s: State, t: seq<Item>, f: seq<byte>, p: Packet)
    requires Decode(f) == Some(p) && p.proto == 0xc021 && (p.code == 3 || p.code == 4)
    requires PppConvergence.DistinctTypes(s.lcpOurs)
    ensures var g := OnEvent(c, s, t, Frame(f));
            if p.id != s.lcpID then g == Conf(Running(s), t + [Got(Frame(f))])
            else
              var id := if s.id == 255 then 0 else s.id + 1;
              && g.st.Running?
              && g.st.s == s.(lcpOurs := g.st.s.lcpOurs, id := id, lcpID := id)
              && g.t == t + [Got(Frame(f))] + [Sent(0xc021, Cp(1, id, Pack(g.st.s.lcpOurs)))]
              && (p.code == 4 ==> g.st.s.lcpOurs == PppConvergence.Omit(s.lcpOurs, Lenient(p.data)))
              && (p.code == 3 ==> |g.st.s.lcpOurs| == |s.lcpOurs| && forall i :: 0 <= i < |s.lcpOurs| ==>
                    g.st.s.lcpOurs[i] == Opt(s.lcpOurs[i].t,
                      PppConvergence.LastValue(Lenient(p.data), s.lcpOurs[i].t, s.lcpOurs[i].v, false)))
  {
    hide Decode, Pack, Cp, RewriteLcp, Lenient, PppConvergence.Omit, PppConvergence.LastValue,
         PppConvergence.DistinctTypes;
    if p.code == 4 {
      PppConvergence.LcpRejectInOrder(s.lcpOurs, Lenient(p.data));
    } else {
      PppConvergence.LcpNakObeyed(s.lcpOurs, Lenient(p.data));
    }
  }

  /** So does an IPCP refusal, unless it rejects the address; a Nak changes four-byte values only. */
  lemma IpcpRefusalAnswered(c: Config, s: State, t: seq<Item>, f: seq<byte>, p: Packet)
    requires Decode(f) == Some(p) && p.proto == 0x8021 && (p.code == 3 || p.code == 4) && Shape(s.ipcpOurs)
    ensures var g := OnEvent(c, s, t, Frame(f));
            if p.id != s.ipcpID then g == Conf(Running(s), t + [Got(Frame(f))])
            else if p.code == 4 && PppConvergence.Names(Lenient(p.data), 3) then g.st.Failed?
            else
              var id := if s.id == 255 then 0 else s.id + 1;
              && g.st.Running?
              && g.st.s == s.(ipcpOurs := g.st.s.ipcpOurs, id := id, ipcpID := id)
              && g.t == t + [Got(Frame(f))] + [Sent(0x8021, Cp(1, id, Pack(g.st.s.ipcpOurs)))]
              && (p.code == 4 ==> g.st.s.ipcpOurs == PppConvergence.Omit(s.ipcpOurs, Lenient(p.data)))
              && (p.code == 3 ==> |g.st.s.ipcpOurs| == |s.ipcpOurs| && forall i :: 0 <= i < |s.ipcpOurs| ==>
                    g.st.s.ipcpOurs[i] == Opt(s.ipcpOurs[i].t,
                      PppConvergence.LastValue(Lenient(p.data), s.ipcpOurs[i].t, s.ipcpOurs[i].v, true)))
  {
    hide Decode, Pack, Cp, RewriteIpcp, Lenient, PppConvergence.Omit, PppConvergence.LastValue, PppConvergence.Names,
         PppConvergence.DistinctTypes, Shape;
    ShapeIsDistinct(s.ipcpOurs);
    if p.code == 4 {
      PppConvergence.IpcpRejectObeyed(s.ipcpOurs, Lenient(p.data));
      if RewriteIpcp(true, s.ipcpOurs, Lenient(p.data)).Some? {
        PppConvergence.IpcpRejectInOrder(s.ipcpOurs, Lenient(p.data));
      }
    } else {
      PppConvergence.IpcpNakObeyed(s.ipcpOurs, Lenient(p.data));
    }
  }

  // ---------------------------------------------------------------- the head of a round

  /**
    What is due at the head of a round, in its order: the PAP request, once; onAuth, then the IPCP
    request, once; the link.  The first of these calls that fails ends the negotiation.
    */
  lemma HeadExactly(c: Config, s: State, t: seq<Item>, calls: Calls)
    requires Shape(s.ipcpOurs)
    ensures var pap := s.lcpOurOK && s.lcpPeerOK && s.authProto == 0xc023 && !s.papSent;
            var ask := s.authOK && !s.ipcpSent;
            var hook := ask && c.hasHook;
            var credentials := [|c.user| % 256] + c.user + [|c.pass| % 256] + c.pass;
            var t1 := if pap then t + [Sent(0xc023, Cp(1, s.papID, credentials))] else t;
            var t2 := if hook then t1 + [Hook(s.hlak)] else t1;
            var t3 := if ask then t2 + [Sent(0x8021, Cp(1, s.ipcpID, Pack(s.ipcpOurs)))] else t2;
            var h := Head(c, s, t, calls);
            if pap && !calls.papOk then h == Conf(Failed(SendFailed), t1)
            else if hook && !calls.hookOk then h == Conf(Failed(HookFailed), t2)
            else if ask && !calls.ipcpOk then h == Conf(Failed(SendFailed), t3)
            else
              && h.t == t3
              && if !(s.ipcpOurOK && s.ipcpPeerOK) then
                   h.st == Running(s.(papSent := s.papSent || pap, ipcpSent := s.ipcpSent || ask))
                 else if Opt(3, Zeros(4)) in s.ipcpOurs then h.st == Failed(NoAddress)
                 else h.st.Up? && Describes(h.st.link, s.ipcpOurs)
  {
    hide Pack, Cp, ReadLink, Unspecified, Describes, Shape, Servers;
    if s.ipcpOurOK && s.ipcpPeerOK { LinkExactly(s.ipcpOurs); }
  }

  lemma LinkExactly(o: seq<Opt>)
    requires Shape(o)
    ensures ReadLink(o).local.Some?
    ensures Unspecified(ReadLink(o).local) <==> Opt(3, Zeros(4)) in o
    ensures !Unspecified(ReadLink(o).local) ==> Describes(ReadLink(o), o)
  {
    hide ReadLink, Unspecified, Servers;
    ReadLinkMeans(o);
    var i :| 0 <= i < |o| && o[i].t == IPCP_ADDR;
    var l := ReadLink(o).local;
    assert l.Some?;
    var j :| 0 <= j < |o| && o[j] == Opt(IPCP_ADDR, l.value);
    FourBytes(l.value);
    UnspecifiedIsZero(l.value);
    if Opt(3, Zeros(4)) in o {
      var k :| 0 <= k < |o| && o[k] == Opt(3, Zeros(4));
      assert k == j;
    }
  }

  lemma FourBytes(v: seq<byte>)
    requires |v| == 4
    ensures ToAddr(v) == Some(v)
  {
  }

  /** A closed connection ends the negotiation, and so does a first request that cannot be sent. */
  lemma ClosedEnds(c: Config, s: State, t: seq<Item>)
    ensures OnEvent(c, s, t, Closed) == Conf(Failed(ConnectionClosed), t + [Got(Closed)])
    ensures Boot(c, false).st == Failed(SendFailed) && Boot(c, true).st == Running(Start(c))
  {
  }
}
