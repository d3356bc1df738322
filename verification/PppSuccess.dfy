/**
  The negotiation does come up: with a cooperative server, whatever it asks for authentication
  and in whatever order, how often and between what other frames its packets come.
*/
module PppSuccess {
  import opened Bytes
  import opened PppOptions
  import opened Ppp
  import opened PppSafety

  const FINE := Calls(true, true, true)

  function Offer(a: seq<byte>, d1: seq<byte>, d2: seq<byte>): seq<Opt> {
    [Opt(IPCP_ADDR, a), Opt(IPCP_DNS1, d1), Opt(IPCP_DNS2, d2)]
  }

  /** What the server asks for authentication, 0 being nothing, and what it assigns. */
  datatype Server = Server(auth: int, a: seq<byte>, d1: seq<byte>, d2: seq<byte>)

  function Assigned(v: Server): seq<Opt> { Offer(v.a, v.d1, v.d2) }

  function LinkOf(v: Server): Link { Link(Some(v.a), Servers(Assigned(v))) }

  ghost predicate Sound(c: Config, v: Server) {
    && |v.a| == 4 && |v.d1| == 4 && |v.d2| == 4 && v.a != Zeros(4)
    && (v.auth == 0 || (v.auth == PAP && c.auth != OnlyMsChap) || (v.auth == CHAP && c.auth != OnlyPap))
  }

  /** A control packet from the server, framed. */
  function From(proto: int, code: byte, id: byte, data: seq<byte>): Input {
    Input(FINE, Frame([0xff, 0x03] + Put16(proto) + Cp(code, id, data)))
  }

  // ---------------------------------------------------------------- a cooperative server

  predicate Clean(c: Config, p: Packet) {
    Parse(p.data).Some? && Scan(c, Parse(p.data).value).rej == [] && Scan(c, Parse(p.data).value).nak == []
  }

  /** An IPCP request the client acks. */
  predicate IsIpcpRequest(p: Packet) {
    p.proto == IPCP && p.code == CONF_REQ && Parse(p.data).Some? && NotAddr(Parse(p.data).value) == []
  }

  predicate IsIpcpAck(s: State, p: Packet) {
    p.proto == IPCP && p.code == CONF_ACK && p.id == s.ipcpID
  }

  /**
    The packets that do not break the negotiation off: no refused authentication, no terminate,
    one authentication protocol, and of the client's current IPCP request only an Ack when it asks
    for what is assigned, and a Nak that assigns it, both once the request is out.
    */
  predicate Cooperates(c: Config, v: Server, s: State, p: Packet) {
    if p.proto == LCP then
      p.code != TERM_REQ && (p.code == CONF_REQ && Clean(c, p) ==> Scan(c, Parse(p.data).value).auth == v.auth)
    else if p.proto == PAP then !(p.id == s.papID && p.code == 3)
    else if p.proto == CHAP then
      && (p.code == 1 ==> v.auth == CHAP && GoodChallenge(p))
      && (p.code == 3 ==> c.crypto.proves(s.nt, s.authChal, p.data))
      && p.code != 4
    else if p.proto == IPCP && p.id == s.ipcpID then
      && (p.code == CONF_ACK ==> s.ipcpSent && s.ipcpOurs == Assigned(v))
      && (p.code == CONF_NAK ==> s.ipcpSent && Parse(p.data) == Some(Assigned(v)))
      && p.code != CONF_REJ
    else true
  }

  /** Ticks, frames that decode to nothing, and cooperative packets; every send succeeds. */
  predicate Benign(c: Config, v: Server, s: State, i: Input) {
    && i.calls == FINE
    && match i.ev
       case Tick => true
       case Frame(f) => Decode(f).Some? ==> Cooperates(c, v, s, Decode(f).value)
       case _ => false
  }

  /** The state in which the event of a round is taken. */
  function AfterHead(s: State): State {
    s.(papSent := s.papSent || (s.lcpOurOK && s.lcpPeerOK && s.authProto == PAP), ipcpSent := s.ipcpSent || s.authOK)
  }

  /** Every input of the run comes from the cooperative server or its surroundings, until the link is up. */
  ghost predicate BenignRun(c: Config, v: Server, ins: seq<Input>) {
    forall k :: 0 <= k < |ins| ==>
      var g := Run(c, true, ins[..k]);
      g.st.Running? ==> Benign(c, v, AfterHead(g.st.s), ins[k])
  }

  // ---------------------------------------------------------------- one round

  ghost predicate OnCourse(v: Server, s: State) {
    && (s.ipcpOurs == Offer(Zeros(4), Zeros(4), Zeros(4)) || s.ipcpOurs == Assigned(v))
    && (s.ipcpOurOK ==> s.ipcpOurs == Assigned(v))
    && (s.lcpPeerOK ==> s.authProto == v.auth && (v.auth == 0 ==> s.authOK))
  }

  /** The link is up as assigned, or the negotiation goes on. */
  ghost predicate Going(v: Server, g: Conf) {
    g.st == Up(LinkOf(v)) || (g.st.Running? && OnCourse(v, g.st.s))
  }

  lemma AssignedLink(c: Config, v: Server)
    requires Sound(c, v)
    ensures ReadLink(Assigned(v)) == LinkOf(v) && !Unspecified(Some(v.a))
  {
    var o := Assigned(v);
    ReadLinkMeans(o);
    UnspecifiedIsZero(v.a);
    assert o[0].t == IPCP_ADDR;
    var l := ReadLink(o);
    assert Opt(IPCP_ADDR, l.local.value) in o;
  }

  lemma HeadGoesOn(c: Config, v: Server, s: State, t: seq<Item>)
    requires Sound(c, v) && OnCourse(v, s)
    ensures Head(c, s, t, FINE).st == if s.ipcpOurOK && s.ipcpPeerOK then Up(LinkOf(v)) else Running(AfterHead(s))
    ensures OnCourse(v, AfterHead(s))
  {
    hide ReadLink, Servers, Unspecified, Pack;
    AssignedLink(c, v);
  }

  lemma RewriteOffer(x: seq<byte>, y: seq<byte>, z: seq<byte>, v: Server)
    requires |v.a| == 4 && |v.d1| == 4 && |v.d2| == 4
    ensures RewriteIpcp(false, Offer(x, y, z), Assigned(v)) == Some(Assigned(v))
  {
    var w, o := Offer(x, y, z), Assigned(v);
    assert o[..0] == [] && o[..1][..0] == [] && o[..2][..1] == o[..1] && o[..3] == o && o[..3][..2] == o[..2];
    assert RewriteIpcp(false, w, o[..0]) == Some(w);
    assert RewriteIpcp(false, w, o[..1]) == AmendIpcp(false, w, o[0]);
    assert Find(w, IPCP_ADDR) == 0 && w[0 := o[0]] == [o[0], w[1], w[2]];
    assert RewriteIpcp(false, w, o[..1]) == Some([o[0], w[1], w[2]]);
    assert Find([o[0], w[1], w[2]], IPCP_DNS1) == 1 && [o[0], w[1], w[2]][1 := o[1]] == [o[0], o[1], w[2]];
    assert RewriteIpcp(false, w, o[..2]) == Some([o[0], o[1], w[2]]);
    assert Find([o[0], o[1], w[2]], IPCP_DNS2) == 2;
    assert [o[0], o[1], w[2]][2 := o[2]] == o;
  }

  /** What has been achieved is kept. */
  predicate NoLess(s: State, s': State) {
    (s.lcpOurOK ==> s'.lcpOurOK) && (s.lcpPeerOK ==> s'.lcpPeerOK) && (s.authOK ==> s'.authOK)
  }

  lemma LcpRequestGoesOn(c: Config, v: Server, s: State, t: seq<Item>, p: Packet)
    requires OnCourse(v, s) && p.proto == LCP && p.code == CONF_REQ && Cooperates(c, v, s, p)
    ensures var g := OnLcpReq(c, s, t, p);
            && g.st.Running? && OnCourse(v, g.st.s) && NoLess(s, g.st.s)
            && g.st.s.ipcpPeerOK == s.ipcpPeerOK && g.st.s.ipcpOurOK == s.ipcpOurOK
  {
    hide Pack, Parse, Scan, AnswerTo, Offer, Zeros, Cp;
  }

  lemma LcpGoesOn(c: Config, v: Server, s: State, t: seq<Item>, p: Packet)
    requires OnCourse(v, s) && p.proto == LCP && Cooperates(c, v, s, p)
    ensures var g := OnLcp(c, s, t, p);
            && g.st.Running? && OnCourse(v, g.st.s) && NoLess(s, g.st.s)
            && g.st.s.ipcpPeerOK == s.ipcpPeerOK && g.st.s.ipcpOurOK == s.ipcpOurOK
  {
    hide Pack, RewriteLcp, OnLcpReq, Offer, Zeros, Cp, Clean;
    if p.code == CONF_REQ { LcpRequestGoesOn(c, v, s, t, p); }
  }

  lemma PapGoesOn(c: Config, v: Server, s: State, t: seq<Item>, p: Packet)
    requires OnCourse(v, s) && p.proto == PAP && Cooperates(c, v, s, p)
    ensures var g := OnPap(s, t, p);
            && g.st.Running? && OnCourse(v, g.st.s) && NoLess(s, g.st.s)
            && g.st.s.ipcpPeerOK == s.ipcpPeerOK && g.st.s.ipcpOurOK == s.ipcpOurOK
  {
    hide Offer, Zeros;
  }

  lemma ChapGoesOn(c: Config, v: Server, s: State, t: seq<Item>, p: Packet)
    requires OnCourse(v, s) && p.proto == CHAP && Cooperates(c, v, s, p)
    ensures var g := OnChap(c, s, t, p);
            && g.st.Running? && OnCourse(v, g.st.s) && NoLess(s, g.st.s)
            && g.st.s.ipcpPeerOK == s.ipcpPeerOK && g.st.s.ipcpOurOK == s.ipcpOurOK
  {
    hide ChapResponse, Offer, Zeros, Cp;
  }

  lemma NakGoesOn(v: Server, s: State, t: seq<Item>, p: Packet)
    requires |v.a| == 4 && |v.d1| == 4 && |v.d2| == 4
    requires OnCourse(v, s) && p.code == CONF_NAK && Parse(p.data) == Some(Assigned(v))
    ensures var s' := s.(ipcpOurs := Assigned(v), id := NextID(s.id), ipcpID := NextID(s.id));
            OnIpcpRefusal(s, t, p) == Conf(Running(s'), t + [IpcpReq(s')])
  {
    hide Pack, Parse, RewriteIpcp, Cp;
    var o := s.ipcpOurs;
    assert o == Offer(o[0].v, o[1].v, o[2].v);
    RewriteOffer(o[0].v, o[1].v, o[2].v, v);
  }

  lemma IpcpRequestGoesOn(s: State, t: seq<Item>, p: Packet)
    requires p.proto == IPCP && p.code == CONF_REQ
    ensures OnIpcpReq(s, t, p).st == Running(s.(ipcpPeerOK := s.ipcpPeerOK || IsIpcpRequest(p)))
  {
    hide Pack, Parse, NotAddr, Cp;
  }

  lemma IpcpGoesOn(c: Config, v: Server, s: State, t: seq<Item>, p: Packet)
    requires Sound(c, v) && OnCourse(v, s) && p.proto == IPCP && Cooperates(c, v, s, p)
    ensures var g := OnIpcp(s, t, p);
            && g.st.Running? && OnCourse(v, g.st.s) && NoLess(s, g.st.s)
            && g.st.s.ipcpPeerOK == (s.ipcpPeerOK || IsIpcpRequest(p))
            && g.st.s.ipcpOurOK == (s.ipcpOurOK || IsIpcpAck(s, p))
  {
    hide Pack, Parse, NotAddr, OnIpcpReq, OnIpcpRefusal, Offer, Zeros, Cp;
    if p.code == CONF_REQ {
      IpcpRequestGoesOn(s, t, p);
    } else if p.code == CONF_NAK && p.id == s.ipcpID {
      NakGoesOn(v, s, t, p);
    }
  }

  /** The packet an event delivers, if any. */
  function Delivers(ev: Event): Option<Packet> {
    if ev.Frame? then Decode(ev.f) else None
  }

  lemma PacketGoesOn(c: Config, v: Server, s: State, t: seq<Item>, p: Packet)
    requires Sound(c, v) && OnCourse(v, s) && Cooperates(c, v, s, p)
    ensures var g := OnPacket(c, s, t, p);
            && g.st.Running? && OnCourse(v, g.st.s) && NoLess(s, g.st.s)
            && g.st.s.ipcpPeerOK == (s.ipcpPeerOK || IsIpcpRequest(p))
            && g.st.s.ipcpOurOK == (s.ipcpOurOK || IsIpcpAck(s, p))
  {
    hide OnLcp, OnPap, OnChap, OnIpcp, Cooperates, OnCourse;
    if p.proto == LCP {
      LcpGoesOn(c, v, s, t, p);
    } else if p.proto == PAP {
      PapGoesOn(c, v, s, t, p);
    } else if p.proto == CHAP {
      ChapGoesOn(c, v, s, t, p);
    } else if p.proto == IPCP {
      IpcpGoesOn(c, v, s, t, p);
    } else {
      OtherGoesOn(v, s, t, p);
    }
  }

  lemma OtherGoesOn(v: Server, s: State, t: seq<Item>, p: Packet)
    requires OnCourse(v, s)
    ensures var g := OnOther(s, t, p);
            g.st == Running(s.(id := NextID(s.id))) && OnCourse(v, g.st.s)
  {
  }

  /** One benign round from a state on course. */
  lemma RoundGoesOn(c: Config, v: Server, s: State, t: seq<Item>, i: Input)
    requires Sound(c, v) && OnCourse(v, s) && Benign(c, v, AfterHead(s), i)
    ensures var g := Round(c, Conf(Running(s), t), i);
            if s.ipcpOurOK && s.ipcpPeerOK then g.st == Up(LinkOf(v))
            else
              && g.st.Running? && OnCourse(v, g.st.s) && NoLess(s, g.st.s)
              && g.st.s.ipcpPeerOK == (s.ipcpPeerOK || (Delivers(i.ev).Some? && IsIpcpRequest(Delivers(i.ev).value)))
              && g.st.s.ipcpOurOK == (s.ipcpOurOK || (Delivers(i.ev).Some? && IsIpcpAck(s, Delivers(i.ev).value)))
  {
    hide Head, OnPacket, OnTick, Cooperates, OnCourse, IsIpcpRequest, LinkOf, Decode;
    HeadGoesOn(c, v, s, t);
    if !(s.ipcpOurOK && s.ipcpPeerOK) {
      var h := Head(c, s, t, FINE);
      match i.ev {
        case Tick => TickGoesOn(c, h.st.s, h.t + [Got(i.ev)]);
        case Frame(f) =>
          if Decode(f).Some? { PacketGoesOn(c, v, h.st.s, h.t + [Got(i.ev)], Decode(f).value); }
      }
    }
  }

  lemma TickGoesOn(c: Config, s: State, t: seq<Item>)
    ensures OnTick(c, s, t).st == Running(s)
  {
    hide Pack;
  }

  // ---------------------------------------------------------------- every benign run

  ghost predicate GetsRequest(c: Config, ins: seq<Input>) {
    exists k :: 0 <= k < |ins| && Run(c, true, ins[..k]).st.Running?
                && Delivers(ins[k].ev).Some? && IsIpcpRequest(Delivers(ins[k].ev).value)
  }

  ghost predicate GetsAck(c: Config, ins: seq<Input>) {
    exists k :: 0 <= k < |ins| && Run(c, true, ins[..k]).st.Running?
                && Delivers(ins[k].ev).Some? && IsIpcpAck(Run(c, true, ins[..k]).st.s, Delivers(ins[k].ev).value)
  }

  /** After the run, the link is up as assigned, or the flags tell what has been heard. */
  ghost predicate Tells(c: Config, v: Server, ins: seq<Input>) {
    var g := Run(c, true, ins);
    if g.st.Running? then
      && OnCourse(v, g.st.s)
      && (g.st.s.ipcpPeerOK <==> GetsRequest(c, ins)) && (g.st.s.ipcpOurOK <==> GetsAck(c, ins))
    else g.st == Up(LinkOf(v)) && GetsRequest(c, ins) && GetsAck(c, ins)
  }

  lemma GetsMore(c: Config, ins: seq<Input>, i: Input)
    ensures GetsRequest(c, ins + [i]) <==>
            GetsRequest(c, ins) || (Run(c, true, ins).st.Running?
                                    && Delivers(i.ev).Some? && IsIpcpRequest(Delivers(i.ev).value))
    ensures GetsAck(c, ins + [i]) <==>
            GetsAck(c, ins) || (Run(c, true, ins).st.Running?
                                && Delivers(i.ev).Some? && IsIpcpAck(Run(c, true, ins).st.s, Delivers(i.ev).value))
  {
    hide Run, Delivers, IsIpcpRequest, IsIpcpAck;
    var all, n := ins + [i], |ins|;
    assert all[..n] == ins && all[n] == i;
    assert forall k :: 0 <= k < n ==> all[..k] == ins[..k] && all[k] == ins[k];
  }

  lemma BenignMore(c: Config, v: Server, ins: seq<Input>, i: Input)
    ensures BenignRun(c, v, ins + [i]) <==>
            BenignRun(c, v, ins)
            && (Run(c, true, ins).st.Running? ==> Benign(c, v, AfterHead(Run(c, true, ins).st.s), i))
    ensures Run(c, true, ins + [i]) == Round(c, Run(c, true, ins), i)
  {
    hide Run, Benign, Round;
    var all, n := ins + [i], |ins|;
    assert all[..n] == ins && all[n] == i;
    assert forall k :: 0 <= k < n ==> all[..k] == ins[..k] && all[k] == ins[k];
    assert Run(c, true, all) == Round(c, Run(c, true, all[..n]), all[n]) by { RunUnfolds(c, all); }
  }

  lemma RunUnfolds(c: Config, ins: seq<Input>)
    requires ins != []
    ensures Run(c, true, ins) == Round(c, Run(c, true, ins[..|ins| - 1]), ins[|ins| - 1])
  {
  }

  lemma {:induction false} TellsAlong(c: Config, v: Server, ins: seq<Input>)
    requires Sound(c, v) && BenignRun(c, v, ins)
    ensures Tells(c, v, ins)
  {
    hide BenignRun, GetsRequest, GetsAck, Round, Benign, OnCourse, IsIpcpRequest, IsIpcpAck, LinkOf, Sound;
    if ins == [] {
      BootTells(c, v);
    } else {
      var init, i := ins[..|ins| - 1], ins[|ins| - 1];
      assert ins == init + [i];
      BenignMore(c, v, init, i);
      GetsMore(c, init, i);
      TellsAlong(c, v, init);
      var g := Run(c, true, init);
      if g.st.Running? {
        RoundGoesOn(c, v, g.st.s, g.t, i);
      } else {
        UpStays(c, g, i);
      }
    }
  }

  lemma UpStays(c: Config, g: Conf, i: Input)
    requires !g.st.Running?
    ensures Round(c, g, i) == g
  {
  }

  lemma BootTells(c: Config, v: Server)
    ensures Tells(c, v, [])
  {
    hide Pack;
  }

  /**
    With a cooperative server, whatever it asks for authentication and whatever comes in between,
    in any order and any number: the negotiation never fails, and it is up, with exactly the
    address and servers assigned, if and only if before the last round the client has acked a
    request of the server and had its own acked.
    */
  lemma ComesUpExactly(c: Config, v: Server, ins: seq<Input>, last: Input)
    requires Sound(c, v) && BenignRun(c, v, ins + [last])
    ensures var st := Run(c, true, ins + [last]).st;
            && (st.Running? || st == Up(LinkOf(v)))
            && (st == Up(LinkOf(v)) <==> GetsRequest(c, ins) && GetsAck(c, ins))
  {
    hide BenignRun, GetsRequest, GetsAck, Round, Benign, OnCourse, LinkOf, Sound, Run, IsIpcpAck, IsIpcpRequest;
    BenignMore(c, v, ins, last);
    TellsAlong(c, v, ins);
    var g := Run(c, true, ins);
    if g.st.Running? {
      RoundGoesOn(c, v, g.st.s, g.t, last);
    } else {
      UpStays(c, g, last);
    }
  }

  // ---------------------------------------------------------------- it can always be completed

  /** How far a benign run has come, if the link is not up yet. */
  ghost predicate Reached(c: Config, v: Server, ins: seq<Input>, n: nat) {
    var g := Run(c, true, ins);
    && BenignRun(c, v, ins)
    && (g.st.Running? ==>
          && OnCourse(v, g.st.s)
          && (n >= 1 ==> g.st.s.lcpPeerOK)
          && (n >= 2 ==> g.st.s.lcpOurOK)
          && (n >= 3 ==> g.st.s.authOK)
          && (n >= 4 ==> g.st.s.ipcpPeerOK)
          && (n >= 5 ==> g.st.s.ipcpOurs == Assigned(v))
          && (n >= 6 ==> g.st.s.ipcpOurOK))
  }

  /** The server sends one more packet. */
  lemma Serve(c: Config, v: Server, ins: seq<Input>, proto: int, code: byte, id: byte, data: seq<byte>)
    returns (t: seq<Item>)
    requires Sound(c, v) && BenignRun(c, v, ins) && Going(v, Run(c, true, ins)) && |data| <= 1000
    requires proto == LCP || proto == PAP || proto == CHAP || proto == IPCP
    requires var g := Run(c, true, ins);
             g.st.Running? ==> Cooperates(c, v, AfterHead(g.st.s), Packet(proto, code, id, data, Cp(code, id, data)))
    ensures var g, g' := Run(c, true, ins), Run(c, true, ins + [From(proto, code, id, data)]);
            && BenignRun(c, v, ins + [From(proto, code, id, data)])
            && (g'.st.Running? ==>
                  && g.st.Running? && OnCourse(v, g'.st.s) && NoLess(g.st.s, g'.st.s)
                  && g' == OnPacket(c, AfterHead(g.st.s), t, Packet(proto, code, id, data, Cp(code, id, data))))
  {
    hide Run, Round, BenignRun, Cooperates, OnCourse, Sound, LinkOf, Decode, Cp, OnPacket, IsIpcpAck, IsIpcpRequest;
    var i := From(proto, code, id, data);
    DecodeCp(proto, code, id, data);
    t := [];
    BenignMore(c, v, ins, i);
    var g := Run(c, true, ins);
    if g.st.Running? {
      RoundGoesOn(c, v, g.st.s, g.t, i);
      HeadGoesOn(c, v, g.st.s, g.t);
      if !(g.st.s.ipcpOurOK && g.st.s.ipcpPeerOK) {
        t := Head(c, g.st.s, g.t, FINE).t + [Got(i.ev)];
        RoundIsPacket(c, g.st.s, g.t, i, Packet(proto, code, id, data, Cp(code, id, data)));
      }
    } else {
      UpStays(c, g, i);
    }
  }

  lemma RoundIsPacket(c: Config, s: State, t: seq<Item>, i: Input, p: Packet)
    requires Head(c, s, t, i.calls).st == Running(AfterHead(s)) && Delivers(i.ev) == Some(p)
    ensures Round(c, Conf(Running(s), t), i)
            == OnPacket(c, AfterHead(s), Head(c, s, t, i.calls).t + [Got(i.ev)], p)
  {
    hide Head, OnPacket, Decode;
  }

  /** The options of a server that asks for this authentication. */
  function AuthOptions(v: Server): seq<Opt> {
    if v.auth == 0 then []
    else if v.auth == PAP then [Opt(LCP_AUTH, [0xc0, 0x23])]
    else [Opt(LCP_AUTH, [0xc2, 0x23, CHAP_MSV2])]
  }

  lemma AuthOptionsScan(c: Config, v: Server)
    requires Sound(c, v)
    ensures |Pack(AuthOptions(v))| <= 5 && Parse(Pack(AuthOptions(v))) == Some(AuthOptions(v))
    ensures Scan(c, AuthOptions(v)) == Verdict([], [], v.auth)
  {
    var o := AuthOptions(v);
    ParsePack(o);
    if o != [] {
      assert o[1..] == [] && o[..0] == [];
      assert Scan(c, o) == Judge(c, Verdict([], [], 0), o[0]);
    }
  }

  lemma LcpComes(c: Config, v: Server, ins: seq<Input>) returns (ins': seq<Input>)
    requires Sound(c, v) && Reached(c, v, ins, 0)
    ensures ins <= ins' && Reached(c, v, ins', 1)
  {
    hide Run, BenignRun, Pack, Parse, Scan, Cp, OnCourse, AuthOptions, AnswerTo, LinkOf;
    TellsAlong(c, v, ins);
    AuthOptionsScan(c, v);
    var t := Serve(c, v, ins, LCP, CONF_REQ, 1, Pack(AuthOptions(v)));
    ins' := ins + [From(LCP, CONF_REQ, 1, Pack(AuthOptions(v)))];
  }

  lemma LcpAckComes(c: Config, v: Server, ins: seq<Input>) returns (ins': seq<Input>)
    requires Sound(c, v) && Reached(c, v, ins, 1)
    ensures ins <= ins' && Reached(c, v, ins', 2)
  {
    hide Run, BenignRun, Cp, OnCourse, LinkOf, Parse;
    TellsAlong(c, v, ins);
    var g := Run(c, true, ins);
    var id: byte := if g.st.Running? then g.st.s.lcpID else 0;
    var t := Serve(c, v, ins, LCP, CONF_ACK, id, []);
    ins' := ins + [From(LCP, CONF_ACK, id, [])];
  }

  /** What an MS-CHAPv2 server sends: a challenge, and a proof that it knows the password. */
  ghost predicate Proves(c: Config, chal: seq<byte>, proof: seq<byte>) {
    |chal| == 16 && |proof| <= 1000 && c.crypto.proves(c.crypto.ntResponse(chal), chal, proof)
  }

  lemma AuthComes(c: Config, v: Server, ins: seq<Input>, chal: seq<byte>, proof: seq<byte>) returns (ins': seq<Input>)
    requires Sound(c, v) && Reached(c, v, ins, 2) && (v.auth == CHAP ==> Proves(c, chal, proof))
    ensures ins <= ins' && Reached(c, v, ins', 3)
  {
    hide Run, BenignRun, Cp, LinkOf, ChapResponse;
    TellsAlong(c, v, ins);
    var g := Run(c, true, ins);
    if v.auth == PAP {
      var id: byte := if g.st.Running? then g.st.s.papID else 0;
      var t := Serve(c, v, ins, PAP, 2, id, []);
      ins' := ins + [From(PAP, 2, id, [])];
    } else if v.auth == CHAP {
      var data: seq<byte> := [16] + chal;
      assert data[1..17] == chal;
      var t := Serve(c, v, ins, CHAP, 1, 1, data);
      var ins1 := ins + [From(CHAP, 1, 1, data)];
      TellsAlong(c, v, ins1);
      var t1 := Serve(c, v, ins1, CHAP, 3, 1, proof);
      ins' := ins1 + [From(CHAP, 3, 1, proof)];
    } else {
      ins' := ins;
    }
  }

  lemma IpcpComes(c: Config, v: Server, ins: seq<Input>) returns (ins': seq<Input>)
    requires Sound(c, v) && Reached(c, v, ins, 3)
    ensures ins <= ins' && Reached(c, v, ins', 4)
  {
    hide Run, BenignRun, Cp, LinkOf, OnCourse;
    TellsAlong(c, v, ins);
    assert Parse([]) == Some([]) && NotAddr([]) == [];
    var t := Serve(c, v, ins, IPCP, CONF_REQ, 1, []);
    ins' := ins + [From(IPCP, CONF_REQ, 1, [])];
  }

  lemma AssignedBytes(v: Server)
    requires |v.a| == 4 && |v.d1| == 4 && |v.d2| == 4
    ensures |Pack(Assigned(v))| == 18 && Parse(Pack(Assigned(v))) == Some(Assigned(v))
  {
    var o := Assigned(v);
    ParsePack(o);
    assert o[1..] == [o[1], o[2]] && o[1..][1..] == [o[2]] && [o[2]][1..] == [];
    assert |Pack([o[2]])| == 6 && |Pack([o[1], o[2]])| == 12 by { assert [o[1], o[2]][1..] == [o[2]]; }
  }

  lemma NakComes(c: Config, v: Server, ins: seq<Input>) returns (ins': seq<Input>)
    requires Sound(c, v) && Reached(c, v, ins, 4)
    ensures ins <= ins' && Reached(c, v, ins', 5)
  {
    hide Run, BenignRun, Cp, LinkOf, Pack, Parse, RewriteIpcp, Zeros;
    TellsAlong(c, v, ins);
    AssignedBytes(v);
    var g := Run(c, true, ins);
    var id: byte := if g.st.Running? then g.st.s.ipcpID else 0;
    var t := Serve(c, v, ins, IPCP, CONF_NAK, id, Pack(Assigned(v)));
    ins' := ins + [From(IPCP, CONF_NAK, id, Pack(Assigned(v)))];
    if g.st.Running? {
      var data := Pack(Assigned(v));
      NakGoesOn(v, AfterHead(g.st.s), t, Packet(IPCP, CONF_NAK, id, data, Cp(CONF_NAK, id, data)));
    }
  }

  lemma AckComes(c: Config, v: Server, ins: seq<Input>) returns (ins': seq<Input>)
    requires Sound(c, v) && Reached(c, v, ins, 5)
    ensures ins <= ins' && Reached(c, v, ins', 6)
  {
    hide Run, BenignRun, Cp, LinkOf, Offer, Zeros;
    TellsAlong(c, v, ins);
    var g := Run(c, true, ins);
    var id: byte := if g.st.Running? then g.st.s.ipcpID else 0;
    var t := Serve(c, v, ins, IPCP, CONF_ACK, id, []);
    ins' := ins + [From(IPCP, CONF_ACK, id, [])];
  }

  /** Whatever a cooperative server has sent so far, it can go on so that the link comes up as assigned. */
  lemma CanComplete(c: Config, v: Server, ins: seq<Input>, chal: seq<byte>, proof: seq<byte>)
    returns (ins': seq<Input>)
    requires Sound(c, v) && BenignRun(c, v, ins) && (v.auth == CHAP ==> Proves(c, chal, proof))
    ensures ins <= ins' && BenignRun(c, v, ins') && Run(c, true, ins').st == Up(LinkOf(v))
  {
    hide Run, BenignRun, LinkOf, OnCourse, Sound, Proves;
    TellsAlong(c, v, ins);
    ins' := LcpComes(c, v, ins);
    ins' := LcpAckComes(c, v, ins');
    ins' := AuthComes(c, v, ins', chal, proof);
    ins' := IpcpComes(c, v, ins');
    ins' := NakComes(c, v, ins');
    ins' := AckComes(c, v, ins');
    TellsAlong(c, v, ins');
    var last := Input(FINE, Tick);
    BenignMore(c, v, ins', last);
    ComesUpExactly(c, v, ins', last);
    ins' := ins' + [last];
  }
}
