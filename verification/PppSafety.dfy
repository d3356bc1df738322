/**
  What every run of the PPP negotiation keeps.  The properties are read off the
  trace of heard events and sent packets; the invariant ties the client's
  variables to that trace.
  */
module PppSafety {
  import opened Bytes
  import opened PppOptions
  import opened Ppp

  // ---------------------------------------------------------------- reading a trace

  /** The control packet an item carries from the peer. */
  function Heard(x: Item): Option<Packet> {
    if x.Got? && x.ev.Frame? then Decode(x.ev.f) else None
  }

  predicate HeardAs(x: Item, proto: int, code: byte) {
    Heard(x).Some? && Heard(x).value.proto == proto && Heard(x).value.code == code
  }

  function PeerID(x: Item): byte
    requires Heard(x).Some?
  {
    Heard(x).value.id
  }

  predicate IsReq(x: Item, proto: int) {
    x.Sent? && x.proto == proto && |x.pkt| >= 4 && x.pkt[0] == CONF_REQ
  }

  predicate IsPapReq(x: Item) { x.Sent? && x.proto == PAP }

  predicate IsLcpAckSent(x: Item) {
    x.Sent? && x.proto == LCP && |x.pkt| >= 4 && x.pkt[0] == CONF_ACK
  }

  /** A request of that protocol went out under identifier k. */
  ghost predicate Requested(t: seq<Item>, proto: int, k: byte) {
    exists i :: 0 <= i < |t| && IsReq(t[i], proto) && t[i].pkt[1] == k
  }

  ghost predicate LcpAckedByUs(t: seq<Item>) {
    exists i :: 0 <= i < |t| && IsLcpAckSent(t[i])
  }

  /** The peer acknowledged an LCP request the client had sent. */
  ghost predicate LcpAckedByPeer(t: seq<Item>) {
    exists j :: 0 <= j < |t| && HeardAs(t[j], LCP, CONF_ACK) && Requested(t[..j], LCP, PeerID(t[j]))
  }

  ghost predicate LcpUp(t: seq<Item>) { LcpAckedByUs(t) && LcpAckedByPeer(t) }

  /** The last well-formed CHAP challenge, [] before the first one. */
  function Challenge(t: seq<Item>): seq<byte> {
    if t == [] then []
    else
      var h := Heard(t[|t| - 1]);
      if h.Some? && GoodChallenge(h.value) then h.value.data[1..17] else Challenge(t[..|t| - 1])
  }

  function NtFor(c: Config, t: seq<Item>): seq<byte> {
    if Challenge(t) == [] then [] else c.crypto.ntResponse(Challenge(t))
  }

  ghost predicate NoAuthOption(opts: seq<Opt>) {
    forall i :: 0 <= i < |opts| ==> opts[i].t != LCP_AUTH
  }

  /** x settles authentication: PAP accepted, MS-CHAPv2 proved, or none asked for. */
  ghost predicate AuthEvidence(c: Config, before: seq<Item>, x: Item) {
    || (HeardAs(x, PAP, 2) && PeerID(x) == 4)
    || (HeardAs(x, CHAP, 3) && c.crypto.proves(NtFor(c, before), Challenge(before), Heard(x).value.data))
    || (IsLcpAckSent(x) && Parse(x.pkt[4..]).Some? && NoAuthOption(Parse(x.pkt[4..]).value))
  }

  ghost predicate Authenticated(c: Config, t: seq<Item>) {
    exists j :: 0 <= j < |t| && AuthEvidence(c, t[..j], t[j])
  }

  /** How often onAuth ran. */
  function Hooks(t: seq<Item>): nat {
    if t == [] then 0 else Hooks(t[..|t| - 1]) + if t[|t| - 1].Hook? then 1 else 0
  }

  /** The latest IPCP Configure-Request. */
  function Asked(t: seq<Item>): Option<Item> {
    if t == [] then None
    else if IsReq(t[|t| - 1], IPCP) then Some(t[|t| - 1])
    else Asked(t[..|t| - 1])
  }

  predicate IpcpRefusal(x: Item) { HeardAs(x, IPCP, CONF_NAK) || HeardAs(x, IPCP, CONF_REJ) }

  predicate IpcpAnswer(x: Item) { HeardAs(x, IPCP, CONF_ACK) || IpcpRefusal(x) }

  // ---------------------------------------------------------------- hypotheses on the peer

  /** The peer acks, naks or rejects only IPCP identifiers the client has already sent. */
  ghost predicate Answers(t: seq<Item>) {
    forall j :: 0 <= j < |t| && IpcpAnswer(t[j]) ==> Requested(t[..j], IPCP, PeerID(t[j]))
  }

  ghost predicate IpcpAcked(t: seq<Item>, k: byte) {
    exists i :: 0 <= i < |t| && HeardAs(t[i], IPCP, CONF_ACK) && PeerID(t[i]) == k
  }

  /** The peer never naks or rejects an IPCP identifier it has acked. */
  ghost predicate Steady(t: seq<Item>) {
    forall j :: 0 <= j < |t| && IpcpRefusal(t[j]) ==> !IpcpAcked(t[..j], PeerID(t[j]))
  }

  // ---------------------------------------------------------------- what is promised

  /** A PAP request goes out only after LCP is acknowledged both ways, and never under mschapv2. */
  ghost predicate PapDisciplined(c: Config, t: seq<Item>) {
    forall i :: 0 <= i < |t| && IsPapReq(t[i]) ==> c.auth != OnlyMsChap && LcpUp(t[..i])
  }

  function HookCount(c: Config): nat { if c.hasHook then 1 else 0 }

  /** Every IPCP request comes after authentication and after onAuth ran, once. */
  ghost predicate Ordered(c: Config, t: seq<Item>) {
    forall i :: 0 <= i < |t| && IsReq(t[i], IPCP) ==> Authenticated(c, t[..i]) && Hooks(t[..i]) == HookCount(c)
  }

  ghost predicate TraceOk(c: Config, t: seq<Item>) {
    && PapDisciplined(c, t)
    && (Answers(t) ==> Ordered(c, t))
    && Hooks(t) <= HookCount(c)
  }

  /** The DNS servers an option list offers, in order. */
  function Servers(o: seq<Opt>): seq<Option<seq<byte>>> {
    if o == [] then []
    else
      var x := o[0];
      (if (x.t == IPCP_DNS1 || x.t == IPCP_DNS2) && x.v != Zeros(4) then [Some(x.v)] else [])
      + Servers(o[1..])
  }

  /** Distinct types, four-byte values, the address among them. */
  ghost predicate Shape(o: seq<Opt>) {
    && (forall i, j :: 0 <= i < j < |o| ==> o[i].t != o[j].t)
    && (forall i :: 0 <= i < |o| ==> |o[i].v| == 4)
    && (exists i :: 0 <= i < |o| && o[i].t == IPCP_ADDR)
  }

  /** l holds the address and the servers of this option list, and nothing else. */
  ghost predicate Describes(l: Link, o: seq<Opt>) {
    && Shape(o)
    && l.local.Some? && Opt(IPCP_ADDR, l.local.value) in o && l.local.value != Zeros(4)
    && l.dns == Servers(o)
  }

  /** At j the peer acks the client's latest request, and l is what that request asked for. */
  ghost predicate GrantedAt(l: Link, t: seq<Item>, j: int)
    requires 0 <= j < |t|
  {
    && HeardAs(t[j], IPCP, CONF_ACK)
    && Asked(t[..j]).Some? && Asked(t[..j]) == Asked(t)
    && IsReq(Asked(t).value, IPCP) && Asked(t).value.pkt[1] == PeerID(t[j])
    && Parse(Asked(t).value.pkt[4..]).Some? && Describes(l, Parse(Asked(t).value.pkt[4..]).value)
  }

  ghost predicate LinkOk(c: Config, l: Link, t: seq<Item>) {
    && (exists o :: Describes(l, o))
    && (Answers(t) ==> Authenticated(c, t) && Hooks(t) == HookCount(c))
    && (Answers(t) && Steady(t) ==> exists j :: 0 <= j < |t| && GrantedAt(l, t, j))
  }

  // ---------------------------------------------------------------- the invariant

  /** The peer has acked the request the client's variables still hold. */
  ghost predicate AckedCurrent(s: State, t: seq<Item>) {
    exists j :: 0 <= j < |t| && HeardAs(t[j], IPCP, CONF_ACK) && PeerID(t[j]) == s.ipcpID
                && Asked(t[..j]) == Some(IpcpReq(s))
  }

  ghost predicate Core(c: Config, s: State, t: seq<Item>) {
    && LcpReq(s) in t
    && (s.lcpOurOK ==> LcpAckedByPeer(t))
    && (s.lcpPeerOK ==> LcpAckedByUs(t))
    && (s.authProto == PAP ==> s.lcpPeerOK && c.auth != OnlyMsChap)
    && s.papID == 4
    && (s.authOK ==> Authenticated(c, t))
    && (s.ipcpSent ==> s.authOK && Asked(t).Some?)
    && Hooks(t) == (if s.ipcpSent then HookCount(c) else 0)
    && Shape(s.ipcpOurs)
    && (Asked(t).Some? ==> Asked(t) == Some(IpcpReq(s)))
    && (Answers(t) && (Asked(t).Some? || s.ipcpOurOK) ==> s.ipcpSent)
    && (Answers(t) && Steady(t) && s.ipcpOurOK ==> AckedCurrent(s, t))
  }

  ghost predicate Inv(c: Config, s: State, t: seq<Item>) {
    && Core(c, s, t)
    && TraceOk(c, t)
    && s.authChal == Challenge(t) && s.nt == NtFor(c, t)
  }

  ghost predicate Good(c: Config, g: Conf) {
    && TraceOk(c, g.t)
    && (g.st.Running? ==> Inv(c, g.st.s, g.t))
    && (g.st.Up? ==> LinkOk(c, g.st.link, g.t))
  }

  // ---------------------------------------------------------------- one more item

  lemma SnocReads(t: seq<Item>, x: Item)
    ensures Hooks(t + [x]) == Hooks(t) + if x.Hook? then 1 else 0
    ensures Asked(t + [x]) == if IsReq(x, IPCP) then Some(x) else Asked(t)
    ensures Challenge(t + [x]) == if Heard(x).Some? && GoodChallenge(Heard(x).value)
                                  then Heard(x).value.data[1..17] else Challenge(t)
  {
    assert (t + [x])[..|t|] == t;
  }

  lemma SnocLcpUp(t: seq<Item>, x: Item)
    ensures LcpAckedByUs(t) || IsLcpAckSent(x) ==> LcpAckedByUs(t + [x])
    ensures LcpAckedByPeer(t) ==> LcpAckedByPeer(t + [x])
    ensures HeardAs(x, LCP, CONF_ACK) && Requested(t, LCP, PeerID(x)) ==> LcpAckedByPeer(t + [x])
  {
    var u := t + [x];
    assert u[|t|] == x && u[..|t|] == t;
    if LcpAckedByUs(t) {
      var i :| 0 <= i < |t| && IsLcpAckSent(t[i]);
      assert IsLcpAckSent(u[i]);
    }
    if LcpAckedByPeer(t) {
      var j :| 0 <= j < |t| && HeardAs(t[j], LCP, CONF_ACK) && Requested(t[..j], LCP, PeerID(t[j]));
      assert u[..j] == t[..j] && u[j] == t[j];
    }
  }

  lemma SnocAuthenticated(c: Config, t: seq<Item>, x: Item)
    ensures Authenticated(c, t) || AuthEvidence(c, t, x) ==> Authenticated(c, t + [x])
  {
    hide AuthEvidence;
    var u := t + [x];
    assert u[|t|] == x && u[..|t|] == t;
    if Authenticated(c, t) {
      var j :| 0 <= j < |t| && AuthEvidence(c, t[..j], t[j]);
      assert u[..j] == t[..j] && u[j] == t[j];
    }
  }

  lemma SnocAcked(s: State, t: seq<Item>, x: Item)
    ensures AckedCurrent(s, t) ==> AckedCurrent(s, t + [x])
    ensures HeardAs(x, IPCP, CONF_ACK) && PeerID(x) == s.ipcpID && Asked(t) == Some(IpcpReq(s))
            ==> AckedCurrent(s, t + [x])
  {
    hide IpcpReq;
    var u := t + [x];
    assert u[|t|] == x && u[..|t|] == t;
    if AckedCurrent(s, t) {
      var j :| 0 <= j < |t| && HeardAs(t[j], IPCP, CONF_ACK) && PeerID(t[j]) == s.ipcpID
               && Asked(t[..j]) == Some(IpcpReq(s));
      assert u[..j] == t[..j] && u[j] == t[j];
    }
  }

  lemma SnocPeer(t: seq<Item>, x: Item)
    ensures Answers(t + [x]) ==> Answers(t) && (IpcpAnswer(x) ==> Requested(t, IPCP, PeerID(x)))
    ensures Steady(t + [x]) ==> Steady(t) && (IpcpRefusal(x) ==> !IpcpAcked(t, PeerID(x)))
  {
    hide IpcpAnswer, IpcpRefusal, Requested, IpcpAcked;
    var u := t + [x];
    assert u[|t|] == x && u[..|t|] == t;
    assert forall j :: 0 <= j < |t| ==> u[j] == t[j] && u[..j] == t[..j];
  }

  lemma SnocPap(c: Config, t: seq<Item>, x: Item)
    requires PapDisciplined(c, t)
    requires IsPapReq(x) ==> c.auth != OnlyMsChap && LcpUp(t)
    ensures PapDisciplined(c, t + [x])
  {
    hide LcpUp, IsPapReq;
    var u := t + [x];
    assert u[|t|] == x && u[..|t|] == t;
    assert forall j :: 0 <= j < |t| ==> u[j] == t[j] && u[..j] == t[..j];
  }

  lemma SnocOrdered(c: Config, t: seq<Item>, x: Item)
    requires Ordered(c, t)
    requires IsReq(x, IPCP) ==> Authenticated(c, t) && Hooks(t) == HookCount(c)
    ensures Ordered(c, t + [x])
  {
    hide Authenticated, Hooks, IsReq;
    var u := t + [x];
    assert u[|t|] == x && u[..|t|] == t;
    assert forall j :: 0 <= j < |t| ==> u[j] == t[j] && u[..j] == t[..j];
  }

  lemma {:induction false} RequestedIsAsked(t: seq<Item>, k: byte)
    requires Requested(t, IPCP, k)
    ensures Asked(t).Some?
  {
    var i :| 0 <= i < |t| && IsReq(t[i], IPCP) && t[i].pkt[1] == k;
    if !IsReq(t[|t| - 1], IPCP) {
      assert t[..|t| - 1][i] == t[i];
      RequestedIsAsked(t[..|t| - 1], k);
    }
  }

  /** All of the one-item facts together. */
  lemma Snoc(c: Config, s: State, t: seq<Item>, x: Item)
    ensures Hooks(t + [x]) == Hooks(t) + if x.Hook? then 1 else 0
    ensures Asked(t + [x]) == if IsReq(x, IPCP) then Some(x) else Asked(t)
    ensures Challenge(t + [x]) == if Heard(x).Some? && GoodChallenge(Heard(x).value)
                                  then Heard(x).value.data[1..17] else Challenge(t)
    ensures LcpAckedByUs(t) || IsLcpAckSent(x) ==> LcpAckedByUs(t + [x])
    ensures LcpAckedByPeer(t) ==> LcpAckedByPeer(t + [x])
    ensures Authenticated(c, t) || AuthEvidence(c, t, x) ==> Authenticated(c, t + [x])
    ensures AckedCurrent(s, t) ==> AckedCurrent(s, t + [x])
    ensures Answers(t + [x]) ==> Answers(t)
    ensures Steady(t + [x]) ==> Steady(t)
    ensures LcpReq(s) in t ==> LcpReq(s) in t + [x]
    ensures PapDisciplined(c, t) && (IsPapReq(x) ==> c.auth != OnlyMsChap && LcpUp(t))
            ==> PapDisciplined(c, t + [x])
    ensures Ordered(c, t) && (IsReq(x, IPCP) ==> Authenticated(c, t) && Hooks(t) == HookCount(c))
            ==> Ordered(c, t + [x])
  {
    hide *;
    SnocReads(t, x);
    SnocLcpUp(t, x);
    SnocAuthenticated(c, t, x);
    SnocAcked(s, t, x);
    SnocPeer(t, x);
    if PapDisciplined(c, t) && (IsPapReq(x) ==> c.auth != OnlyMsChap && LcpUp(t)) { SnocPap(c, t, x); }
    if Ordered(c, t) && (IsReq(x, IPCP) ==> Authenticated(c, t) && Hooks(t) == HookCount(c)) {
      SnocOrdered(c, t, x);
    }
  }

  /** AckedCurrent looks only at the identifier and the options in use. */
  lemma SameRequest(s: State, s': State, t: seq<Item>)
    requires s.ipcpID == s'.ipcpID && s.ipcpOurs == s'.ipcpOurs
    ensures AckedCurrent(s, t) ==> AckedCurrent(s', t)
  {
    assert IpcpReq(s) == IpcpReq(s');
  }

  /** Packets other than PAP and IPCP requests leave the invariant alone. */
  lemma SendKeeps(c: Config, s: State, t: seq<Item>, x: Item)
    requires Inv(c, s, t)
    requires x.Sent? && !IsPapReq(x) && !IsReq(x, IPCP)
    ensures Inv(c, s, t + [x])
  {
    hide Hooks, Asked, Challenge, LcpAckedByUs, LcpAckedByPeer, Authenticated, AckedCurrent, Answers, Steady,
         PapDisciplined, Ordered, Shape, AuthEvidence, LcpReq, IpcpReq;
    Snoc(c, s, t, x);
  }

  /** Hearing an event keeps everything but, for a new challenge, the challenge variables. */
  lemma HearKeeps(c: Config, s: State, t: seq<Item>, ev: Event)
    requires Inv(c, s, t)
    ensures Core(c, s, t + [Got(ev)]) && TraceOk(c, t + [Got(ev)])
    ensures !(Heard(Got(ev)).Some? && GoodChallenge(Heard(Got(ev)).value)) ==> Inv(c, s, t + [Got(ev)])
  {
    hide Hooks, Asked, Challenge, LcpAckedByUs, LcpAckedByPeer, Authenticated, AckedCurrent, Answers, Steady,
         PapDisciplined, Ordered, Shape, AuthEvidence, LcpReq, IpcpReq, Heard, GoodChallenge;
    Snoc(c, s, t, Got(ev));
  }

  // ---------------------------------------------------------------- option lists

  /** A clean scan took up an acceptable protocol, or none because none was asked for. */
  lemma {:induction false} ScanClean(c: Config, opts: seq<Opt>)
    requires Scan(c, opts).rej == [] && Scan(c, opts).nak == []
    ensures Scan(c, opts).auth == 0 ==> NoAuthOption(opts)
    ensures Scan(c, opts).auth == PAP ==> c.auth != OnlyMsChap
  {
    if opts != [] {
      var init, x := opts[..|opts| - 1], opts[|opts| - 1];
      ScanClean(c, init);
      assert opts == init + [x];
      assert forall i :: 0 <= i < |init| ==> opts[i] == init[i];
    }
  }

  lemma AmendIpcpShape(rejected: bool, ours: seq<Opt>, x: Opt)
    requires Shape(ours)
    ensures AmendIpcp(rejected, ours, x).Some? ==> Shape(AmendIpcp(rejected, ours, x).value)
  {
    var i := Find(ours, x.t);
    var a :| 0 <= a < |ours| && ours[a].t == IPCP_ADDR;
    if AmendIpcp(rejected, ours, x).Some? && i < |ours| {
      var o := AmendIpcp(rejected, ours, x).value;
      if rejected {
        assert forall k :: 0 <= k < |o| ==> o[k] == if k < i then ours[k] else ours[k + 1];
        assert o[if a < i then a else a - 1].t == IPCP_ADDR;
      } else {
        assert o[a].t == IPCP_ADDR;
      }
    }
  }

  lemma {:induction false} RewriteIpcpShape(rejected: bool, ours: seq<Opt>, opts: seq<Opt>)
    requires Shape(ours) && RewriteIpcp(rejected, ours, opts).Some?
    ensures Shape(RewriteIpcp(rejected, ours, opts).value)
  {
    hide Shape;
    if opts != [] {
      var init := opts[..|opts| - 1];
      RewriteIpcpShape(rejected, ours, init);
      AmendIpcpShape(rejected, RewriteIpcp(rejected, ours, init).value, opts[|opts| - 1]);
    }
  }

  lemma {:induction false} ServersSnoc(o: seq<Opt>, x: Opt)
    ensures Servers(o + [x]) == Servers(o) + Servers([x])
  {
    if o == [] {
      assert o + [x] == [x];
    } else {
      assert (o + [x])[1..] == o[1..] + [x];
      ServersSnoc(o[1..], x);
    }
  }

  lemma UnspecifiedIsZero(v: seq<byte>)
    requires |v| == 4
    ensures Unspecified(ToAddr(v)) <==> v == Zeros(4)
  {
  }

  lemma {:induction false} ReadLinkMeans(o: seq<Opt>)
    requires forall i :: 0 <= i < |o| ==> |o[i].v| == 4
    ensures var l := ReadLink(o);
            && l.dns == Servers(o)
            && (l.local.Some? ==> Opt(IPCP_ADDR, l.local.value) in o && |l.local.value| == 4)
            && (l.local.None? ==> forall i :: 0 <= i < |o| ==> o[i].t != IPCP_ADDR)
  {
    if o != [] {
      var init, x := o[..|o| - 1], o[|o| - 1];
      assert o == init + [x];
      ReadLinkMeans(init);
      ServersSnoc(init, x);
      UnspecifiedIsZero(x.v);
      assert Servers([x]) == if (x.t == IPCP_DNS1 || x.t == IPCP_DNS2) && x.v != Zeros(4) then [Some(x.v)] else [];
      if x.t == IPCP_ADDR { assert x == Opt(IPCP_ADDR, x.v); }
    }
  }

  lemma LinkDescribes(o: seq<Opt>)
    requires Shape(o) && ReadLink(o).local.Some? && !Unspecified(ReadLink(o).local)
    ensures Describes(ReadLink(o), o)
  {
    ReadLinkMeans(o);
    UnspecifiedIsZero(ReadLink(o).local.value);
  }

  // ---------------------------------------------------------------- the head of the loop

  lemma HeadPapKeeps(c: Config, s: State, t: seq<Item>, calls: Calls)
    requires Inv(c, s, t)
    ensures Good(c, HeadPap(c, s, t, calls))
  {
    hide Hooks, Asked, Challenge, LcpAckedByUs, LcpAckedByPeer, Authenticated, Answers, Steady,
         PapDisciplined, Ordered, Shape, AuthEvidence, Pack;
    Snoc(c, s, t, PapReq(c, s));
  }

  lemma IpcpReqKeeps(c: Config, s: State, t: seq<Item>)
    requires Inv(c, s, t) && s.authOK && s.ipcpSent && !s.ipcpOurOK
    ensures Inv(c, s, t + [IpcpReq(s)])
  {
    hide Hooks, Asked, Challenge, LcpAckedByUs, LcpAckedByPeer, Authenticated, Answers, Steady,
         PapDisciplined, Ordered, Shape, AuthEvidence, Pack;
    Snoc(c, s, t, IpcpReq(s));
  }

  lemma HeadAuthKeeps(c: Config, s: State, t: seq<Item>, calls: Calls)
    requires Inv(c, s, t)
    ensures Good(c, HeadAuth(c, s, t, calls))
  {
    hide Hooks, Asked, Challenge, LcpAckedByUs, LcpAckedByPeer, Authenticated, AckedCurrent, Answers, Steady,
         PapDisciplined, Ordered, Shape, AuthEvidence, Pack;
    var s' := s.(ipcpSent := true);
    assert LcpReq(s') == LcpReq(s) && IpcpReq(s') == IpcpReq(s);
    if c.hasHook {
      Snoc(c, s', t, Hook(s.hlak));
      Snoc(c, s', t + [Hook(s.hlak)], IpcpReq(s'));
    } else {
      Snoc(c, s', t, IpcpReq(s'));
    }
  }

  lemma GrantedLink(s: State, t: seq<Item>)
    requires Shape(s.ipcpOurs) && AckedCurrent(s, t) && Asked(t) == Some(IpcpReq(s))
    requires ReadLink(s.ipcpOurs).local.Some? && !Unspecified(ReadLink(s.ipcpOurs).local)
    ensures exists j :: 0 <= j < |t| && GrantedAt(ReadLink(s.ipcpOurs), t, j)
  {
    hide ReadLink, Asked, Pack, Parse;
    var l := ReadLink(s.ipcpOurs);
    var j :| 0 <= j < |t| && HeardAs(t[j], IPCP, CONF_ACK) && PeerID(t[j]) == s.ipcpID
             && Asked(t[..j]) == Some(IpcpReq(s));
    assert IpcpReq(s).pkt[4..] == Pack(s.ipcpOurs);
    ParsePack(s.ipcpOurs);
    LinkDescribes(s.ipcpOurs);
    assert GrantedAt(l, t, j);
  }

  lemma HeadLinkKeeps(c: Config, s: State, t: seq<Item>)
    requires Inv(c, s, t)
    ensures Good(c, HeadLink(s, t))
  {
    hide Hooks, Asked, Challenge, LcpAckedByUs, LcpAckedByPeer, Authenticated, AckedCurrent, Answers, Steady,
         PapDisciplined, Ordered, Shape, AuthEvidence, Pack, ReadLink, Unspecified, Describes, GrantedAt;
    var l := ReadLink(s.ipcpOurs);
    if s.ipcpOurOK && s.ipcpPeerOK && l.local.Some? && !Unspecified(l.local) {
      LinkDescribes(s.ipcpOurs);
      if Answers(t) && Steady(t) { GrantedLink(s, t); }
    }
  }

  lemma HeadKeeps(c: Config, s: State, t: seq<Item>, calls: Calls)
    requires Inv(c, s, t)
    ensures Good(c, Head(c, s, t, calls))
  {
    hide Inv, TraceOk, LinkOk, HeadPap, HeadAuth, HeadLink;
    HeadPapKeeps(c, s, t, calls);
    var a := HeadPap(c, s, t, calls);
    if a.st.Running? {
      HeadAuthKeeps(c, a.st.s, a.t, calls);
      var b := HeadAuth(c, a.st.s, a.t, calls);
      if b.st.Running? { HeadLinkKeeps(c, b.st.s, b.t); }
    }
  }

  // ---------------------------------------------------------------- events

  lemma TickKeeps(c: Config, s: State, t: seq<Item>)
    requires Inv(c, s, t)
    ensures Good(c, OnTick(c, s, t))
  {
    hide Hooks, Asked, Challenge, LcpAckedByUs, LcpAckedByPeer, Authenticated, AckedCurrent, Answers, Steady,
         PapDisciplined, Ordered, Shape, AuthEvidence, Pack;
    if !s.lcpOurOK {
      SendKeeps(c, s, t, LcpReq(s));
    } else if s.authProto == PAP && !s.authOK {
      Snoc(c, s, t, PapReq(c, s));
    } else if s.ipcpSent && !s.ipcpOurOK {
      IpcpReqKeeps(c, s, t);
    }
  }

  lemma LcpReqKeeps(c: Config, s: State, t: seq<Item>, p: Packet)
    requires Inv(c, s, t)
    ensures Good(c, OnLcpReq(c, s, t, p))
  {
    hide Hooks, Asked, Challenge, LcpAckedByUs, LcpAckedByPeer, Authenticated, AckedCurrent, Answers, Steady,
         PapDisciplined, Ordered, Shape, Pack, Parse, Scan, NtFor;
    match Parse(p.data) {
      case None =>
      case Some(opts) =>
        var v := Scan(c, opts);
        if |v.rej| > 0 {
          SendKeeps(c, s, t, Sent(LCP, Cp(CONF_REJ, p.id, Pack(v.rej))));
        } else if |v.nak| > 0 {
          SendKeeps(c, s, t, Sent(LCP, Cp(CONF_NAK, p.id, Pack(v.nak))));
        } else {
          ScanClean(c, opts);
          LcpAckKeeps(c, s, t, p, opts, v.auth);
        }
    }
  }

  /** Acknowledging the peer's request, whatever acceptable protocol it named. */
  lemma LcpAckKeeps(c: Config, s: State, t: seq<Item>, p: Packet, opts: seq<Opt>, auth: int)
    requires Inv(c, s, t)
    requires Parse(p.data) == Some(opts)
    requires auth == 0 ==> NoAuthOption(opts)
    requires auth == PAP ==> c.auth != OnlyMsChap
    ensures Inv(c, s.(authProto := auth, authOK := s.authOK || auth == 0, lcpPeerOK := true),
                t + [Sent(LCP, Cp(CONF_ACK, p.id, p.data))])
  {
    hide Hooks, Asked, Challenge, LcpAckedByUs, LcpAckedByPeer, Authenticated, AckedCurrent, Answers, Steady,
         PapDisciplined, Ordered, Shape, Pack, Parse;
    var x := Sent(LCP, Cp(CONF_ACK, p.id, p.data));
    var s' := s.(authProto := auth, authOK := s.authOK || auth == 0, lcpPeerOK := true);
    assert LcpReq(s') == LcpReq(s) && IpcpReq(s') == IpcpReq(s);
    SameRequest(s, s', t);
    assert x.pkt[4..] == p.data;
    Snoc(c, s', t, x);
  }

  lemma LcpRefusalKeeps(c: Config, s: State, t: seq<Item>, p: Packet)
    requires Inv(c, s, t)
    ensures Good(c, OnLcpRefusal(s, t, p))
  {
    hide Hooks, Asked, Challenge, LcpAckedByUs, LcpAckedByPeer, Authenticated, AckedCurrent, Answers, Steady,
         PapDisciplined, Ordered, Shape, Pack, Parse, Decode, RewriteLcp, Lenient;
    var s' := OnLcpRefusal(s, t, p).st.s;
    assert IpcpReq(s') == IpcpReq(s);
    SameRequest(s, s', t);
    Snoc(c, s', t, LcpReq(s'));
  }

  lemma LcpAckHeard(c: Config, s: State, u: seq<Item>, f: seq<byte>, p: Packet)
    requires Inv(c, s, u) && Decode(f) == Some(p) && p.proto == LCP && p.code == CONF_ACK && p.id == s.lcpID
    ensures Inv(c, s.(lcpOurOK := true), u + [Got(Frame(f))])
  {
    hide Hooks, Asked, Challenge, LcpAckedByUs, LcpAckedByPeer, Authenticated, AckedCurrent, Answers, Steady,
         PapDisciplined, Ordered, Shape, Pack, Parse, Decode;
    var x := Got(Frame(f));
    var s' := s.(lcpOurOK := true);
    HearKeeps(c, s, u, Frame(f));
    var i :| 0 <= i < |u| && u[i] == LcpReq(s);
    assert Requested(u, LCP, PeerID(x));
    SnocLcpUp(u, x);
    assert LcpReq(s') == LcpReq(s) && IpcpReq(s') == IpcpReq(s);
    SameRequest(s, s', u + [x]);
  }

  lemma LcpKeeps(c: Config, s: State, u: seq<Item>, f: seq<byte>, p: Packet)
    requires Inv(c, s, u) && Decode(f) == Some(p) && p.proto == LCP
    ensures Good(c, OnLcp(c, s, u + [Got(Frame(f))], p))
  {
    hide Core, TraceOk, LinkOk, NtFor, Challenge, Decode, OnLcpReq, OnLcpRefusal;
    var t := u + [Got(Frame(f))];
    HearKeeps(c, s, u, Frame(f));
    InvTrace(c, s, t);
    if p.code == CONF_REQ {
      LcpReqKeeps(c, s, t, p);
    } else if p.code == CONF_ACK {
      if p.id == s.lcpID { LcpAckHeard(c, s, u, f, p); }
    } else if p.code == CONF_NAK || p.code == CONF_REJ {
      if p.id == s.lcpID { LcpRefusalKeeps(c, s, t, p); }
    } else if p.code == ECHO_REQ {
      SendKeeps(c, s, t, Sent(LCP, Cp(ECHO_REPLY, p.id, c.magic)));
    } else if p.code == TERM_REQ {
      SendKeeps(c, s, t, Sent(LCP, Cp(TERM_ACK, p.id, [])));
    }
  }

  lemma InvTrace(c: Config, s: State, t: seq<Item>)
    requires Inv(c, s, t)
    ensures TraceOk(c, t)
  {
  }

  /** Evidence just heard settles authentication. */
  lemma AuthHeard(c: Config, s: State, s': State, u: seq<Item>, ev: Event)
    requires Inv(c, s, u) && AuthEvidence(c, u, Got(ev))
    requires !(Heard(Got(ev)).Some? && GoodChallenge(Heard(Got(ev)).value))
    requires s' == s.(authOK := true, hlak := s'.hlak)
    ensures Inv(c, s', u + [Got(ev)])
  {
    hide Hooks, Asked, Challenge, LcpAckedByUs, LcpAckedByPeer, Authenticated, AckedCurrent, Answers, Steady,
         PapDisciplined, Ordered, Shape, Pack, Parse, Decode, AuthEvidence, Heard, GoodChallenge;
    HearKeeps(c, s, u, ev);
    SnocAuthenticated(c, u, Got(ev));
    assert LcpReq(s') == LcpReq(s) && IpcpReq(s') == IpcpReq(s);
    SameRequest(s, s', u + [Got(ev)]);
  }

  lemma PapKeeps(c: Config, s: State, u: seq<Item>, f: seq<byte>, p: Packet)
    requires Inv(c, s, u) && Decode(f) == Some(p) && p.proto == PAP
    ensures Good(c, OnPap(s, u + [Got(Frame(f))], p))
  {
    hide TraceOk, LinkOk, Decode, Hooks, Asked, Challenge, LcpAckedByUs, LcpAckedByPeer, Authenticated,
         AckedCurrent, Answers, Steady, Shape;
    HearKeeps(c, s, u, Frame(f));
    if p.id == s.papID && p.code == 2 {
      assert AuthEvidence(c, u, Got(Frame(f)));
      AuthHeard(c, s, s.(authOK := true), u, Frame(f));
    }
  }

  lemma ChallengeKeeps(c: Config, s: State, u: seq<Item>, f: seq<byte>, p: Packet)
    requires Inv(c, s, u) && Decode(f) == Some(p) && GoodChallenge(p)
    ensures Good(c, OnChap(c, s, u + [Got(Frame(f))], p))
  {
    hide Hooks, Asked, Challenge, LcpAckedByUs, LcpAckedByPeer, Authenticated, AckedCurrent, Answers, Steady,
         PapDisciplined, Ordered, Shape, Pack, Parse, Decode, AuthEvidence, ChapResponse;
    var x := Got(Frame(f));
    HearKeeps(c, s, u, Frame(f));
    Snoc(c, s, u, x);
    var s' := s.(authProto := CHAP, authChal := p.data[1..17], nt := c.crypto.ntResponse(p.data[1..17]));
    assert LcpReq(s') == LcpReq(s) && IpcpReq(s') == IpcpReq(s);
    SameRequest(s, s', u + [x]);
    assert Inv(c, s', u + [x]);
    SendKeeps(c, s', u + [x], Sent(CHAP, Cp(2, p.id, ChapResponse(c, s'.nt))));
  }

  lemma ChapKeeps(c: Config, s: State, u: seq<Item>, f: seq<byte>, p: Packet)
    requires Inv(c, s, u) && Decode(f) == Some(p) && p.proto == CHAP
    ensures Good(c, OnChap(c, s, u + [Got(Frame(f))], p))
  {
    hide Core, TraceOk, LinkOk, Decode, Challenge, ChapResponse;
    if GoodChallenge(p) {
      ChallengeKeeps(c, s, u, f, p);
    } else {
      HearKeeps(c, s, u, Frame(f));
      if p.code == 3 && c.crypto.proves(s.nt, s.authChal, p.data) {
        assert AuthEvidence(c, u, Got(Frame(f)));
        AuthHeard(c, s, s.(authOK := true, hlak := c.crypto.hlak(s.nt)), u, Frame(f));
      }
    }
  }

  lemma IpcpReqHeard(c: Config, s: State, t: seq<Item>, p: Packet)
    requires Inv(c, s, t)
    ensures Good(c, OnIpcpReq(s, t, p))
  {
    hide Hooks, Asked, Challenge, LcpAckedByUs, LcpAckedByPeer, Authenticated, AckedCurrent, Answers, Steady,
         PapDisciplined, Ordered, Shape, Pack, Parse, Decode, AuthEvidence, NotAddr;
    match Parse(p.data) {
      case None =>
      case Some(opts) =>
        var rej := NotAddr(opts);
        if |rej| > 0 {
          SendKeeps(c, s, t, Sent(IPCP, Cp(CONF_REJ, p.id, Pack(rej))));
        } else {
          var s' := s.(ipcpPeerOK := true);
          assert LcpReq(s') == LcpReq(s) && IpcpReq(s') == IpcpReq(s);
          SameRequest(s, s', t);
          SendKeeps(c, s', t, Sent(IPCP, Cp(CONF_ACK, p.id, p.data)));
        }
    }
  }

  lemma IpcpAckHeard(c: Config, s: State, u: seq<Item>, f: seq<byte>, p: Packet)
    requires Inv(c, s, u) && Decode(f) == Some(p) && p.proto == IPCP && p.code == CONF_ACK && p.id == s.ipcpID
    ensures Inv(c, s.(ipcpOurOK := true), u + [Got(Frame(f))])
  {
    hide Hooks, Asked, Challenge, LcpAckedByUs, LcpAckedByPeer, Authenticated, AckedCurrent, Answers, Steady,
         PapDisciplined, Ordered, Shape, Pack, Parse, Decode, AuthEvidence, Requested;
    var x := Got(Frame(f));
    var s' := s.(ipcpOurOK := true);
    HearKeeps(c, s, u, Frame(f));
    Snoc(c, s', u, x);
    assert LcpReq(s') == LcpReq(s) && IpcpReq(s') == IpcpReq(s);
    SnocPeer(u, x);
    if Answers(u + [x]) { RequestedIsAsked(u, p.id); }
    SnocAcked(s', u, x);
  }

  lemma IpcpRefusalHeard(c: Config, s: State, u: seq<Item>, f: seq<byte>, p: Packet)
    requires Inv(c, s, u) && Decode(f) == Some(p) && p.proto == IPCP && p.id == s.ipcpID
    requires p.code == CONF_NAK || p.code == CONF_REJ
    ensures Good(c, OnIpcpRefusal(s, u + [Got(Frame(f))], p))
  {
    hide Hooks, Asked, Challenge, LcpAckedByUs, LcpAckedByPeer, Authenticated, AckedCurrent, Answers, Steady,
         PapDisciplined, Ordered, Shape, Pack, Parse, Decode, AuthEvidence, Requested, RewriteIpcp, Lenient;
    var x := Got(Frame(f));
    var t := u + [x];
    HearKeeps(c, s, u, Frame(f));
    SnocPeer(u, x);
    if Answers(t) { RequestedIsAsked(u, p.id); Snoc(c, s, u, x); }
    if Answers(t) && Steady(t) && s.ipcpOurOK { AckedIsAcked(s, u); assert false; }
    var r := RewriteIpcp(p.code == CONF_REJ, s.ipcpOurs, Lenient(p.data));
    if r.Some? {
      RewriteIpcpShape(p.code == CONF_REJ, s.ipcpOurs, Lenient(p.data));
      var s' := s.(ipcpOurs := r.value, id := NextID(s.id), ipcpID := NextID(s.id));
      assert LcpReq(s') == LcpReq(s);
      Snoc(c, s', t, IpcpReq(s'));
    }
  }

  lemma AckedIsAcked(s: State, t: seq<Item>)
    requires AckedCurrent(s, t)
    ensures IpcpAcked(t, s.ipcpID)
  {
  }

  lemma IpcpKeeps(c: Config, s: State, u: seq<Item>, f: seq<byte>, p: Packet)
    requires Inv(c, s, u) && Decode(f) == Some(p) && p.proto == IPCP
    ensures Good(c, OnIpcp(s, u + [Got(Frame(f))], p))
  {
    hide Core, TraceOk, LinkOk, NtFor, Challenge, Decode, OnIpcpReq, OnIpcpRefusal;
    var t := u + [Got(Frame(f))];
    HearKeeps(c, s, u, Frame(f));
    if p.code == CONF_REQ {
      IpcpReqHeard(c, s, t, p);
    } else if p.code == CONF_ACK {
      if p.id == s.ipcpID { IpcpAckHeard(c, s, u, f, p); }
    } else if p.code == CONF_NAK || p.code == CONF_REJ {
      if p.id == s.ipcpID { IpcpRefusalHeard(c, s, u, f, p); }
    }
  }

  lemma OtherKeeps(c: Config, s: State, t: seq<Item>, p: Packet)
    requires Inv(c, s, t)
    ensures Good(c, OnOther(s, t, p))
  {
    hide Hooks, Asked, Challenge, LcpAckedByUs, LcpAckedByPeer, Authenticated, AckedCurrent, Answers, Steady,
         PapDisciplined, Ordered, Shape, Pack, Parse, Decode, AuthEvidence;
    var s' := s.(id := NextID(s.id));
    assert LcpReq(s') == LcpReq(s) && IpcpReq(s') == IpcpReq(s);
    SameRequest(s, s', t);
    SendKeeps(c, s', t, Sent(LCP, Cp(PROTO_REJ, s'.id, Put16(p.proto) + p.body)));
  }

  lemma EventKeeps(c: Config, s: State, u: seq<Item>, ev: Event)
    requires Inv(c, s, u)
    ensures Good(c, OnEvent(c, s, u, ev))
  {
    hide Inv, Core, TraceOk, LinkOk, Decode, OnLcp, OnPap, OnChap, OnIpcp, OnOther, OnTick;
    HearKeeps(c, s, u, ev);
    match ev {
      case Closed =>
      case Deadline =>
      case Tick => TickKeeps(c, s, u + [Got(ev)]);
      case Frame(f) =>
        match Decode(f) {
          case None =>
          case Some(p) =>
            if p.proto == LCP { LcpKeeps(c, s, u, f, p); }
            else if p.proto == PAP { PapKeeps(c, s, u, f, p); }
            else if p.proto == CHAP { ChapKeeps(c, s, u, f, p); }
            else if p.proto == IPCP { IpcpKeeps(c, s, u, f, p); }
            else { OtherKeeps(c, s, u + [Got(ev)], p); }
        }
    }
  }

  lemma BootGood(c: Config, bootOk: bool)
    ensures Good(c, Boot(c, bootOk))
  {
    hide Pack;
    var s := Start(c);
    var x := LcpReq(s);
    assert [] + [x] == [x];
    Snoc(c, s, [], x);
    assert s.ipcpOurs[0].t == IPCP_ADDR;
  }

  lemma {:induction false} RunGood(c: Config, bootOk: bool, ins: seq<Input>)
    ensures Good(c, Run(c, bootOk, ins))
  {
    hide Inv, TraceOk, LinkOk, Boot, Head, OnEvent;
    if ins == [] {
      BootGood(c, bootOk);
    } else {
      var g, i := Run(c, bootOk, ins[..|ins| - 1]), ins[|ins| - 1];
      RunGood(c, bootOk, ins[..|ins| - 1]);
      if g.st.Running? {
        HeadKeeps(c, g.st.s, g.t, i.calls);
        var h := Head(c, g.st.s, g.t, i.calls);
        if h.st.Running? { EventKeeps(c, h.st.s, h.t, i.ev); }
      }
    }
  }

  // ---------------------------------------------------------------- main results

  /** In every run, PAP credentials leave only over an LCP link both sides acknowledged. */
  lemma PapOnlyOverLcp(c: Config, bootOk: bool, ins: seq<Input>)
    ensures PapDisciplined(c, Run(c, bootOk, ins).t)
  {
    hide PapDisciplined, Run;
    RunGood(c, bootOk, ins);
  }

  /** With an answering peer, authentication and the one onAuth call come before every IPCP request and any link. */
  lemma AuthBeforeNetwork(c: Config, bootOk: bool, ins: seq<Input>)
    requires Answers(Run(c, bootOk, ins).t)
    ensures Ordered(c, Run(c, bootOk, ins).t)
    ensures Hooks(Run(c, bootOk, ins).t) <= HookCount(c)
    ensures Run(c, bootOk, ins).st.Up? ==>
              Authenticated(c, Run(c, bootOk, ins).t) && Hooks(Run(c, bootOk, ins).t) == HookCount(c)
  {
    hide Run, Ordered, Answers, Authenticated, Hooks;
    RunGood(c, bootOk, ins);
  }

  /** In every run the IPCP options stay well shaped and equal the latest request, if one went out. */
  lemma IpcpOptionsInForce(c: Config, bootOk: bool, ins: seq<Input>)
    requires Run(c, bootOk, ins).st.Running?
    ensures var g := Run(c, bootOk, ins);
            && Shape(g.st.s.ipcpOurs)
            && (Asked(g.t).Some? ==> Asked(g.t).value == Sent(IPCP, Cp(CONF_REQ, g.st.s.ipcpID, Pack(g.st.s.ipcpOurs))))
  {
    hide Run, Shape, Asked, Pack;
    RunGood(c, bootOk, ins);
  }

  /** A returned link is what the acknowledged request asked for, with a non-zero address. */
  lemma LinkIsGranted(c: Config, bootOk: bool, ins: seq<Input>)
    requires Run(c, bootOk, ins).st.Up?
    ensures var g := Run(c, bootOk, ins);
            && (exists o :: Describes(g.st.link, o))
            && (Answers(g.t) && Steady(g.t) ==> exists j :: 0 <= j < |g.t| && GrantedAt(g.st.link, g.t, j))
  {
    hide Run, Describes, GrantedAt, Answers, Steady;
    RunGood(c, bootOk, ins);
  }

  // ---------------------------------------------------------------- what the credentials carry

  /** A PAP server's reading of a request body: user and password, each with its length. */
  function ReadPap(d: seq<byte>): Option<(seq<byte>, seq<byte>)> {
    if |d| < 1 then None
    else
      var n: int := d[0];
      if |d| < 2 + n then None
      else
        var m: int := d[1 + n];
        if |d| < 2 + n + m then None else Some((d[1..1 + n], d[2 + n..2 + n + m]))
  }

  /** A PAP request is read back as the configured credentials exactly when both fit their length byte. */
  lemma PapCarriesCredentials(c: Config, s: State)
    ensures PapReq(c, s).proto == PAP && PapReq(c, s).pkt[1] == s.papID
    ensures ReadPap(PapReq(c, s).pkt[4..]) == Some((c.user, c.pass)) <==> |c.user| < 256 && |c.pass| < 256
  {
    hide ReadPap;
    assert PapReq(c, s).pkt[4..] == [|c.user| % 256] + c.user + [|c.pass| % 256] + c.pass;
    PapBodyReads(c.user, c.pass);
  }

  lemma PapBodyReads(user: seq<byte>, pass: seq<byte>)
    ensures ReadPap([|user| % 256] + user + [|pass| % 256] + pass) == Some((user, pass))
            <==> |user| < 256 && |pass| < 256
  {
    var n, m := |user|, |pass|;
    var d := [n % 256] + user + [m % 256] + pass;
    assert d[0] == n % 256;
    if n < 256 {
      assert d[1..1 + n] == user && d[1 + n] == m % 256;
      if m < 256 { assert d[2 + n..2 + n + m] == pass; }
    }
  }

  /** A challenge response holds the peer challenge, eight zeros, the NT response, a zero flag and the user name. */
  lemma ResponseFields(c: Config, nt: seq<byte>)
    requires |c.peerChal| == 16 && |nt| == 24
    ensures ChapResponse(c, nt) == [49] + c.peerChal + Zeros(8) + nt + [0] + c.user
  {
    var v := CopyInto(CopyInto(Zeros(49), 0, 49, c.peerChal), 24, 49, nt);
    assert v == c.peerChal + Zeros(8) + nt + [0];
  }
}
