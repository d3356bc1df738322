/**
  Exactly when the negotiation keeps its order.  The design promises that onAuth runs after
  authentication and before IPCP; the event loop keeps that promise in precisely those runs in
  which no IPCP refusal under the first identifier arrives before a request has gone out.
  */
module PppExact {
  import opened Bytes
  import opened PppOptions
  import opened Ppp
  import opened PppSafety
  import PppConvergence
  import PppSuccess

  /** The identifier of the first IPCP request. */
  const FIRST_ID: byte := 3

  /** x refuses the first IPCP identifier, other than by rejecting the address, before any request went out. */
  ghost predicate EarlyItem(before: seq<Item>, x: Item) {
    && IpcpRefusal(x) && PeerID(x) == FIRST_ID && Asked(before).None?
    && !(HeardAs(x, IPCP, CONF_REJ) && PppConvergence.Names(Lenient(Heard(x).value.data), IPCP_ADDR))
  }

  /** The peer refused a request it had not been sent. */
  ghost predicate Premature(t: seq<Item>) {
    exists j :: 0 <= j < |t| && EarlyItem(t[..j], t[j])
  }

  ghost predicate TraceExact(c: Config, t: seq<Item>) { Ordered(c, t) <==> !Premature(t) }

  function FirstOffer(): seq<Opt> { PppSuccess.Offer(Zeros(4), Zeros(4), Zeros(4)) }

  ghost predicate Exact(c: Config, s: State, t: seq<Item>) {
    && (s.authOK <==> Authenticated(c, t))
    && (Asked(t).None? ==> s.ipcpID == FIRST_ID && s.ipcpOurs == FirstOffer() && !s.ipcpSent)
    && TraceExact(c, t)
    && (!Premature(t) && Asked(t).Some? ==> s.ipcpSent)
  }

  ghost predicate ExactGood(c: Config, g: Conf) {
    && Good(c, g) && TraceExact(c, g.t)
    && (g.st.Running? ==> Exact(c, g.st.s, g.t))
    && (g.st.Up? && !Premature(g.t) ==> Authenticated(c, g.t) && Hooks(g.t) == HookCount(c))
  }

  // ---------------------------------------------------------------- one more item, both ways

  lemma AuthenticatedSnoc(c: Config, t: seq<Item>, x: Item)
    ensures Authenticated(c, t + [x]) <==> Authenticated(c, t) || AuthEvidence(c, t, x)
  {
    hide AuthEvidence;
    var u := t + [x];
    SnocAuthenticated(c, t, x);
    assert u[|t|] == x && u[..|t|] == t;
    if Authenticated(c, u) {
      var j :| 0 <= j < |u| && AuthEvidence(c, u[..j], u[j]);
      assert j < |t| ==> u[..j] == t[..j] && u[j] == t[j];
    }
  }

  lemma PrematureSnoc(t: seq<Item>, x: Item)
    ensures Premature(t + [x]) <==> Premature(t) || EarlyItem(t, x)
  {
    hide EarlyItem;
    var u := t + [x];
    assert u[|t|] == x && u[..|t|] == t;
    if Premature(t) {
      var j :| 0 <= j < |t| && EarlyItem(t[..j], t[j]);
      assert u[..j] == t[..j] && u[j] == t[j];
    }
    if Premature(u) {
      var j :| 0 <= j < |u| && EarlyItem(u[..j], u[j]);
      assert j < |t| ==> u[..j] == t[..j] && u[j] == t[j];
    }
  }

  lemma OrderedSnoc(c: Config, t: seq<Item>, x: Item)
    ensures Ordered(c, t + [x]) <==>
            Ordered(c, t) && (IsReq(x, IPCP) ==> Authenticated(c, t) && Hooks(t) == HookCount(c))
  {
    hide Authenticated, Hooks, IsReq;
    var u := t + [x];
    assert u[|t|] == x && u[..|t|] == t;
    assert forall j :: 0 <= j < |t| ==> u[j] == t[j] && u[..j] == t[..j];
    if Ordered(c, u) {
      forall i | 0 <= i < |t| && IsReq(t[i], IPCP)
        ensures Authenticated(c, t[..i]) && Hooks(t[..i]) == HookCount(c)
      {
        assert IsReq(u[i], IPCP);
      }
      assert IsReq(u[|t|], IPCP) ==> Authenticated(c, u[..|t|]) && Hooks(u[..|t|]) == HookCount(c);
    }
  }

  lemma ExactSnoc(c: Config, t: seq<Item>, x: Item)
    ensures Authenticated(c, t + [x]) <==> Authenticated(c, t) || AuthEvidence(c, t, x)
    ensures Premature(t + [x]) <==> Premature(t) || EarlyItem(t, x)
    ensures Ordered(c, t + [x]) <==>
            Ordered(c, t) && (IsReq(x, IPCP) ==> Authenticated(c, t) && Hooks(t) == HookCount(c))
    ensures Asked(t + [x]) == if IsReq(x, IPCP) then Some(x) else Asked(t)
    ensures Hooks(t + [x]) == Hooks(t) + if x.Hook? then 1 else 0
  {
    hide *;
    AuthenticatedSnoc(c, t, x);
    PrematureSnoc(t, x);
    OrderedSnoc(c, t, x);
    SnocReads(t, x);
  }

  /** An item that is neither evidence, nor a request, nor an early refusal changes nothing. */
  lemma PlainItem(c: Config, s: State, t: seq<Item>, x: Item)
    requires Exact(c, s, t)
    requires !AuthEvidence(c, t, x) && !IsReq(x, IPCP) && !EarlyItem(t, x)
    ensures Exact(c, s, t + [x])
  {
    hide AuthEvidence, EarlyItem, Authenticated, Premature, Ordered, Asked, Hooks, IsReq;
    ExactSnoc(c, t, x);
  }

  /** Items the client sends or runs are never early refusals, and only an LCP Ack can be evidence. */
  lemma OwnItem(c: Config, t: seq<Item>, x: Item)
    requires !x.Got?
    ensures !EarlyItem(t, x)
    ensures !IsLcpAckSent(x) ==> !AuthEvidence(c, t, x)
  {
  }

  /** An IPCP request after authentication and onAuth keeps the order. */
  lemma RequestItem(c: Config, s: State, t: seq<Item>)
    requires Inv(c, s, t) && Exact(c, s, t) && s.ipcpSent
    ensures Exact(c, s, t + [IpcpReq(s)])
  {
    hide AuthEvidence, EarlyItem, Authenticated, Premature, Ordered, Asked, Hooks, Pack, TraceOk, Challenge,
         LcpAckedByPeer, LcpAckedByUs, AckedCurrent, Shape, Answers, Steady;
    OwnItem(c, t, IpcpReq(s));
    ExactSnoc(c, t, IpcpReq(s));
  }

  /** Exact looks at four variables only. */
  lemma SameVariables(c: Config, s: State, s': State, t: seq<Item>)
    requires Exact(c, s, t)
    requires s'.authOK == s.authOK && s'.ipcpID == s.ipcpID && s'.ipcpOurs == s.ipcpOurs && s'.ipcpSent == s.ipcpSent
    ensures Exact(c, s', t)
  {
    hide Authenticated, Premature, TraceExact, Asked;
  }

  // ---------------------------------------------------------------- the head of the loop

  lemma HeadPapExact(c: Config, s: State, t: seq<Item>, calls: Calls)
    requires Inv(c, s, t) && Exact(c, s, t)
    ensures ExactGood(c, HeadPap(c, s, t, calls))
  {
    hide Inv, Good, AuthEvidence, EarlyItem, Authenticated, Premature, Ordered, Asked, Hooks;
    HeadPapKeeps(c, s, t, calls);
    var x := PapReq(c, s);
    OwnItem(c, t, x);
    PlainItem(c, s, t, x);
    var s' := s.(papSent := true);
    SameVariables(c, s, s', t + [x]);
    assert PapReq(c, s') == x;
  }

  lemma HeadAuthExact(c: Config, s: State, t: seq<Item>, calls: Calls)
    requires Inv(c, s, t) && Exact(c, s, t)
    ensures ExactGood(c, HeadAuth(c, s, t, calls))
  {
    hide Good, AuthEvidence, EarlyItem, Authenticated, Premature, Ordered, Asked, Hooks, Pack, TraceOk, Challenge,
         LcpAckedByPeer, LcpAckedByUs, AckedCurrent, Shape, Answers, Steady;
    HeadAuthKeeps(c, s, t, calls);
    if s.authOK && !s.ipcpSent {
      var s' := s.(ipcpSent := true);
      var h := Hook(s.hlak);
      OwnItem(c, t, h);
      ExactSnoc(c, t, h);
      var t' := if c.hasHook then t + [h] else t;
      OwnItem(c, t', IpcpReq(s'));
      ExactSnoc(c, t', IpcpReq(s'));
    }
  }

  lemma ZeroOfferIsNoLink()
    ensures ReadLink(FirstOffer()).local == Some(Zeros(4)) && Unspecified(ReadLink(FirstOffer()).local)
  {
    var o := FirstOffer();
    ReadLinkMeans(o);
    UnspecifiedIsZero(Zeros(4));
    assert o[0].t == IPCP_ADDR;
    assert Opt(IPCP_ADDR, ReadLink(o).local.value) in o;
  }

  lemma HeadLinkExact(c: Config, s: State, t: seq<Item>)
    requires Inv(c, s, t) && Exact(c, s, t)
    ensures ExactGood(c, HeadLink(s, t))
  {
    hide Good, AuthEvidence, EarlyItem, Authenticated, Premature, Ordered, Asked, Hooks, Pack, TraceOk, Challenge,
         LcpAckedByPeer, LcpAckedByUs, AckedCurrent, Shape, Answers, Steady, ReadLink, Unspecified;
    HeadLinkKeeps(c, s, t);
    ZeroOfferIsNoLink();
  }

  /** After the head, authentication implies that the first request went out. */
  lemma HeadExact(c: Config, s: State, t: seq<Item>, calls: Calls)
    requires Inv(c, s, t) && Exact(c, s, t)
    ensures ExactGood(c, Head(c, s, t, calls))
    ensures var h := Head(c, s, t, calls); h.st.Running? && h.st.s.authOK ==> h.st.s.ipcpSent
  {
    hide Inv, TraceOk, LinkOk, Exact, TraceExact, Premature, Authenticated, Hooks;
    HeadPapExact(c, s, t, calls);
    var a := HeadPap(c, s, t, calls);
    if a.st.Running? {
      HeadAuthExact(c, a.st.s, a.t, calls);
      var b := HeadAuth(c, a.st.s, a.t, calls);
      if b.st.Running? { HeadLinkExact(c, b.st.s, b.t); }
    }
  }

  // ---------------------------------------------------------------- events

  /** An event that carries neither evidence nor a refusal. */
  lemma QuietEvent(c: Config, s: State, t: seq<Item>, ev: Event)
    requires Exact(c, s, t) && !AuthEvidence(c, t, Got(ev)) && !IpcpRefusal(Got(ev))
    ensures Exact(c, s, t + [Got(ev)])
  {
    hide AuthEvidence, Exact;
    PlainItem(c, s, t, Got(ev));
  }

  lemma SentExact(c: Config, s: State, t: seq<Item>, x: Item)
    requires Exact(c, s, t) && x.Sent? && !IsLcpAckSent(x) && !IsReq(x, IPCP)
    ensures Exact(c, s, t + [x])
  {
    hide AuthEvidence, EarlyItem, Exact;
    OwnItem(c, t, x);
    PlainItem(c, s, t, x);
  }

  lemma TickExact(c: Config, s: State, t: seq<Item>)
    requires Inv(c, s, t) && Exact(c, s, t)
    ensures ExactGood(c, OnTick(c, s, t))
  {
    hide Good, Inv, Authenticated, Premature, Ordered, Asked, Hooks, Pack;
    TickKeeps(c, s, t);
    if !s.lcpOurOK {
      SentExact(c, s, t, LcpReq(s));
    } else if s.authProto == PAP && !s.authOK {
      SentExact(c, s, t, PapReq(c, s));
    } else if s.ipcpSent && !s.ipcpOurOK {
      RequestItem(c, s, t);
    }
  }

  lemma {:induction false} ScanNoAuth(c: Config, opts: seq<Opt>)
    requires NoAuthOption(opts)
    ensures Scan(c, opts).auth == 0
  {
    if opts != [] {
      var init, x := opts[..|opts| - 1], opts[|opts| - 1];
      assert forall i :: 0 <= i < |init| ==> init[i] == opts[i];
      ScanNoAuth(c, init);
    }
  }

  lemma LcpReqExact(c: Config, s: State, t: seq<Item>, p: Packet)
    requires Inv(c, s, t) && Exact(c, s, t)
    ensures ExactGood(c, OnLcpReq(c, s, t, p))
  {
    hide Good, Inv, EarlyItem, Authenticated, Premature, Ordered, Asked, Hooks, Pack, Parse, Scan;
    LcpReqKeeps(c, s, t, p);
    match Parse(p.data) {
      case None =>
      case Some(opts) =>
        var v := Scan(c, opts);
        if |v.rej| > 0 {
          SentExact(c, s, t, Sent(LCP, Cp(CONF_REJ, p.id, Pack(v.rej))));
        } else if |v.nak| > 0 {
          SentExact(c, s, t, Sent(LCP, Cp(CONF_NAK, p.id, Pack(v.nak))));
        } else {
          ScanClean(c, opts);
          if NoAuthOption(opts) { ScanNoAuth(c, opts); }
          var x := Sent(LCP, Cp(CONF_ACK, p.id, p.data));
          assert x.pkt[4..] == p.data;
          assert AuthEvidence(c, t, x) <==> v.auth == 0;
          OwnItem(c, t, x);
          ExactSnoc(c, t, x);
        }
    }
  }

  lemma LcpExact(c: Config, s: State, u: seq<Item>, f: seq<byte>, p: Packet)
    requires Inv(c, s, u) && Exact(c, s, u) && Decode(f) == Some(p) && p.proto == LCP
    ensures ExactGood(c, OnLcp(c, s, u + [Got(Frame(f))], p))
  {
    hide Good, Authenticated, Premature, Ordered, Asked, Hooks, Pack, Decode, Core, TraceOk, OnLcpReq,
         OnLcpRefusal, NtFor, Challenge;
    var t := u + [Got(Frame(f))];
    LcpKeeps(c, s, u, f, p);
    HearKeeps(c, s, u, Frame(f));
    QuietEvent(c, s, u, Frame(f));
    if p.code == CONF_REQ {
      LcpReqExact(c, s, t, p);
    } else if p.code == CONF_ACK {
      if p.id == s.lcpID { SameVariables(c, s, s.(lcpOurOK := true), t); }
    } else if p.code == CONF_NAK || p.code == CONF_REJ {
      if p.id == s.lcpID { LcpRefusalExact(c, s, t, p); }
    } else if p.code == ECHO_REQ {
      SentExact(c, s, t, Sent(LCP, Cp(ECHO_REPLY, p.id, c.magic)));
    } else if p.code == TERM_REQ {
      SentExact(c, s, t, Sent(LCP, Cp(TERM_ACK, p.id, [])));
    }
  }

  lemma LcpRefusalExact(c: Config, s: State, t: seq<Item>, p: Packet)
    requires Exact(c, s, t)
    ensures OnLcpRefusal(s, t, p).st.Running? && Exact(c, OnLcpRefusal(s, t, p).st.s, OnLcpRefusal(s, t, p).t)
  {
    hide Exact, Pack, RewriteLcp, Lenient;
    var s' := OnLcpRefusal(s, t, p).st.s;
    SameVariables(c, s, s', t);
    SentExact(c, s', t, LcpReq(s'));
  }

  /** Evidence just heard sets authOK. */
  lemma EvidenceHeard(c: Config, s: State, s': State, u: seq<Item>, ev: Event)
    requires Exact(c, s, u) && AuthEvidence(c, u, Got(ev)) && !IpcpRefusal(Got(ev))
    requires s' == s.(authOK := true, hlak := s'.hlak)
    ensures Exact(c, s', u + [Got(ev)])
  {
    hide AuthEvidence, Authenticated, Premature, Ordered, Asked, Hooks;
    ExactSnoc(c, u, Got(ev));
  }

  lemma PapExact(c: Config, s: State, u: seq<Item>, f: seq<byte>, p: Packet)
    requires Inv(c, s, u) && Exact(c, s, u) && Decode(f) == Some(p) && p.proto == PAP
    ensures ExactGood(c, OnPap(s, u + [Got(Frame(f))], p))
  {
    hide Good, Authenticated, Premature, Ordered, Asked, Hooks, Decode, TraceOk, Challenge, LcpAckedByPeer,
         LcpAckedByUs, AckedCurrent, Shape, Answers, Steady;
    PapKeeps(c, s, u, f, p);
    assert s.papID == 4;
    if p.id == s.papID && p.code == 2 {
      EvidenceHeard(c, s, s.(authOK := true), u, Frame(f));
    } else {
      QuietEvent(c, s, u, Frame(f));
    }
  }

  lemma ChapExact(c: Config, s: State, u: seq<Item>, f: seq<byte>, p: Packet)
    requires Inv(c, s, u) && Exact(c, s, u) && Decode(f) == Some(p) && p.proto == CHAP
    ensures ExactGood(c, OnChap(c, s, u + [Got(Frame(f))], p))
  {
    hide Good, Authenticated, Premature, Ordered, Asked, Hooks, Decode, TraceOk, Core, Challenge, ChapResponse;
    ChapKeeps(c, s, u, f, p);
    var t := u + [Got(Frame(f))];
    if p.code == 3 && c.crypto.proves(s.nt, s.authChal, p.data) {
      EvidenceHeard(c, s, s.(authOK := true, hlak := c.crypto.hlak(s.nt)), u, Frame(f));
    } else {
      QuietEvent(c, s, u, Frame(f));
      if GoodChallenge(p) {
        var chal := p.data[1..17];
        var s' := s.(authProto := CHAP, authChal := chal, nt := c.crypto.ntResponse(chal));
        SameVariables(c, s, s', t);
        SentExact(c, s', t, Sent(CHAP, Cp(2, p.id, ChapResponse(c, s'.nt))));
      }
    }
  }

  lemma IpcpReqExact(c: Config, s: State, t: seq<Item>, p: Packet)
    requires Inv(c, s, t) && Exact(c, s, t)
    ensures ExactGood(c, OnIpcpReq(s, t, p))
  {
    hide Good, Inv, Authenticated, Premature, Ordered, Asked, Hooks, Pack, Parse, NotAddr;
    IpcpReqHeard(c, s, t, p);
    match Parse(p.data) {
      case None =>
      case Some(opts) =>
        var rej := NotAddr(opts);
        if |rej| > 0 {
          SentExact(c, s, t, Sent(IPCP, Cp(CONF_REJ, p.id, Pack(rej))));
        } else {
          SameVariables(c, s, s.(ipcpPeerOK := true), t);
          SentExact(c, s.(ipcpPeerOK := true), t, Sent(IPCP, Cp(CONF_ACK, p.id, p.data)));
        }
    }
  }

  lemma FirstOfferShape()
    ensures PppConvergence.DistinctTypes(FirstOffer()) && PppConvergence.Names(FirstOffer(), IPCP_ADDR)
  {
    assert FirstOffer()[0].t == IPCP_ADDR;
  }

  /** Whether a refusal of the first request goes through, read off the packet. */
  lemma FirstRefusal(p: Packet)
    ensures RewriteIpcp(p.code == CONF_REJ, FirstOffer(), Lenient(p.data)).None?
            <==> p.code == CONF_REJ && PppConvergence.Names(Lenient(p.data), IPCP_ADDR)
  {
    hide RewriteIpcp, Lenient;
    FirstOfferShape();
    if p.code == CONF_REJ {
      PppConvergence.IpcpRejectObeyed(FirstOffer(), Lenient(p.data));
    } else {
      PppConvergence.IpcpNakObeyed(FirstOffer(), Lenient(p.data));
    }
  }

  lemma RefusalIsEarly(c: Config, s: State, u: seq<Item>, f: seq<byte>, p: Packet)
    requires Exact(c, s, u) && Decode(f) == Some(p) && p.proto == IPCP
    requires p.code == CONF_NAK || p.code == CONF_REJ
    ensures !AuthEvidence(c, u, Got(Frame(f)))
    ensures EarlyItem(u, Got(Frame(f))) <==>
            Asked(u).None? && p.id == s.ipcpID
            && RewriteIpcp(p.code == CONF_REJ, s.ipcpOurs, Lenient(p.data)).Some?
  {
    hide RewriteIpcp, Lenient, Decode, Asked, Authenticated, Premature, TraceExact, PppConvergence.Names;
    FirstRefusal(p);
  }

  lemma IpcpRefusalExact(c: Config, s: State, u: seq<Item>, f: seq<byte>, p: Packet)
    requires Inv(c, s, u) && Exact(c, s, u) && (s.authOK ==> s.ipcpSent)
    requires Decode(f) == Some(p) && p.proto == IPCP && p.id == s.ipcpID
    requires p.code == CONF_NAK || p.code == CONF_REJ
    ensures ExactGood(c, OnIpcpRefusal(s, u + [Got(Frame(f))], p))
  {
    hide Good, AuthEvidence, EarlyItem, Authenticated, Premature, Ordered, Asked, Hooks, Decode, TraceOk, Challenge,
         LcpAckedByPeer, LcpAckedByUs, AckedCurrent, Shape, Answers, Steady, RewriteIpcp, Lenient, Pack;
    var x := Got(Frame(f));
    var t := u + [x];
    IpcpRefusalHeard(c, s, u, f, p);
    RefusalIsEarly(c, s, u, f, p);
    ExactSnoc(c, u, x);
    var r := RewriteIpcp(p.code == CONF_REJ, s.ipcpOurs, Lenient(p.data));
    if r.Some? {
      var s' := s.(ipcpOurs := r.value, id := NextID(s.id), ipcpID := NextID(s.id));
      OwnItem(c, t, IpcpReq(s'));
      ExactSnoc(c, t, IpcpReq(s'));
    }
  }

  lemma IpcpExact(c: Config, s: State, u: seq<Item>, f: seq<byte>, p: Packet)
    requires Inv(c, s, u) && Exact(c, s, u) && (s.authOK ==> s.ipcpSent) && Decode(f) == Some(p) && p.proto == IPCP
    ensures ExactGood(c, OnIpcp(s, u + [Got(Frame(f))], p))
  {
    hide Good, Authenticated, Premature, Ordered, Asked, Hooks, Decode, Core, TraceOk, NtFor, Challenge,
         OnIpcpReq, OnIpcpRefusal, RewriteIpcp, Lenient, EarlyItem;
    var t := u + [Got(Frame(f))];
    IpcpKeeps(c, s, u, f, p);
    HearKeeps(c, s, u, Frame(f));
    if p.code == CONF_NAK || p.code == CONF_REJ {
      if p.id == s.ipcpID {
        IpcpRefusalExact(c, s, u, f, p);
      } else {
        RefusalIsEarly(c, s, u, f, p);
        PlainItem(c, s, u, Got(Frame(f)));
      }
    } else {
      QuietEvent(c, s, u, Frame(f));
      if p.code == CONF_REQ {
        IpcpReqExact(c, s, t, p);
      } else if p.code == CONF_ACK && p.id == s.ipcpID {
        SameVariables(c, s, s.(ipcpOurOK := true), t);
      }
    }
  }

  lemma OtherExact(c: Config, s: State, u: seq<Item>, f: seq<byte>, p: Packet)
    requires Inv(c, s, u) && Exact(c, s, u) && Decode(f) == Some(p)
    requires p.proto != LCP && p.proto != PAP && p.proto != CHAP && p.proto != IPCP
    ensures ExactGood(c, OnOther(s, u + [Got(Frame(f))], p))
  {
    hide Good, Authenticated, Premature, Ordered, Asked, Hooks, Decode, Core, TraceOk, NtFor, Challenge;
    var t := u + [Got(Frame(f))];
    HearKeeps(c, s, u, Frame(f));
    OtherKeeps(c, s, t, p);
    QuietEvent(c, s, u, Frame(f));
    var s' := s.(id := NextID(s.id));
    SameVariables(c, s, s', t);
    SentExact(c, s', t, Sent(LCP, Cp(PROTO_REJ, s'.id, Put16(p.proto) + p.body)));
  }

  lemma EventExact(c: Config, s: State, u: seq<Item>, ev: Event)
    requires Inv(c, s, u) && Exact(c, s, u) && (s.authOK ==> s.ipcpSent)
    ensures ExactGood(c, OnEvent(c, s, u, ev))
  {
    hide Inv, Good, Authenticated, Premature, Ordered, Asked, Hooks, Decode, OnLcp, OnPap, OnChap, OnIpcp,
         OnOther, OnTick;
    EventKeeps(c, s, u, ev);
    if !ev.Frame? || Decode(ev.f).None? {
      QuietEvent(c, s, u, ev);
      HearKeeps(c, s, u, ev);
      if ev.Tick? { TickExact(c, s, u + [Got(ev)]); }
    } else {
      var f, p := ev.f, Decode(ev.f).value;
      if p.proto == LCP { LcpExact(c, s, u, f, p); }
      else if p.proto == PAP { PapExact(c, s, u, f, p); }
      else if p.proto == CHAP { ChapExact(c, s, u, f, p); }
      else if p.proto == IPCP { IpcpExact(c, s, u, f, p); }
      else { OtherExact(c, s, u, f, p); }
    }
  }

  // ---------------------------------------------------------------- every run

  lemma BootExact(c: Config, bootOk: bool)
    ensures ExactGood(c, Boot(c, bootOk))
  {
    hide Good, Pack, Authenticated, Premature, Ordered, EarlyItem;
    BootGood(c, bootOk);
    var s := Start(c);
    NothingYet(c);
    SentExact(c, s, [], LcpReq(s));
    assert [] + [LcpReq(s)] == [LcpReq(s)];
  }

  lemma NothingYet(c: Config)
    ensures Exact(c, Start(c), [])
  {
  }

  lemma {:induction false} RunExact(c: Config, bootOk: bool, ins: seq<Input>)
    ensures ExactGood(c, Run(c, bootOk, ins))
  {
    hide Inv, TraceOk, LinkOk, Exact, TraceExact, Premature, Authenticated, Hooks, Boot, Head, OnEvent;
    if ins == [] {
      BootExact(c, bootOk);
    } else {
      var g, i := Run(c, bootOk, ins[..|ins| - 1]), ins[|ins| - 1];
      RunExact(c, bootOk, ins[..|ins| - 1]);
      if g.st.Running? {
        HeadExact(c, g.st.s, g.t, i.calls);
        var h := Head(c, g.st.s, g.t, i.calls);
        if h.st.Running? { EventExact(c, h.st.s, h.t, i.ev); }
      }
    }
  }

  /**
    In every run: every IPCP request comes after authentication and after the one onAuth call if
    and only if the peer refused no request it had not been sent; and then a returned link does too.
    */
  lemma OrderKeptExactly(c: Config, bootOk: bool, ins: seq<Input>)
    ensures Ordered(c, Run(c, bootOk, ins).t) <==> !Premature(Run(c, bootOk, ins).t)
    ensures Run(c, bootOk, ins).st.Up? && !Premature(Run(c, bootOk, ins).t) ==>
              Authenticated(c, Run(c, bootOk, ins).t) && Hooks(Run(c, bootOk, ins).t) == HookCount(c)
  {
    hide Run, Ordered, Premature, Authenticated, Hooks, Good;
    RunExact(c, bootOk, ins);
  }

  /** A peer that answers only identifiers already sent refuses nothing early. */
  lemma AnsweringIsNotPremature(t: seq<Item>)
    requires Answers(t)
    ensures !Premature(t)
  {
    forall j | 0 <= j < |t|
      ensures !EarlyItem(t[..j], t[j])
    {
      if IpcpRefusal(t[j]) { RequestedIsAsked(t[..j], PeerID(t[j])); }
    }
  }

  /** The order can fail: one Nak of the first identifier, before anything else, draws an IPCP request. */
  lemma OrderCanFail(c: Config)
    ensures var g := Run(c, true, [PppSuccess.From(IPCP, CONF_NAK, FIRST_ID, [])]);
            g.st.Running? && !Ordered(c, g.t) && Asked(g.t).Some?
  {
    hide Authenticated, Ordered, Hooks, Pack, Good, Inv;
    var i := PppSuccess.From(IPCP, CONF_NAK, FIRST_ID, []);
    var ins := [i];
    var s, t := Start(c), [LcpReq(Start(c))];
    assert ins[..0] == [] && Run(c, true, []) == Boot(c, true);
    assert Run(c, true, ins) == Round(c, Boot(c, true), i);
    assert Head(c, s, t, i.calls) == Conf(Running(s), t);
    DecodeCp(IPCP, CONF_NAK, FIRST_ID, []);
    var p := Packet(IPCP, CONF_NAK, FIRST_ID, [], Cp(CONF_NAK, FIRST_ID, []));
    var u := t + [Got(i.ev)];
    EmptyList();
    assert Lenient([]) == [] && RewriteIpcp(false, s.ipcpOurs, []) == Some(s.ipcpOurs);
    var g := Run(c, true, ins);
    assert g == OnIpcpRefusal(s, u, p);
    SnocReads(t, Got(i.ev));
    SnocReads(u, IpcpReq(g.st.s));
    RunExact(c, true, ins);
    assert Asked(t).None?;
    PppConvergence.NamesNothing();
    assert EarlyItem(t, Got(i.ev));
    PrematureSnoc(t, Got(i.ev));
    PrematureSnoc(u, IpcpReq(g.st.s));
  }
}
