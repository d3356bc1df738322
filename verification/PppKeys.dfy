/**
  What the client's variables mean in terms of its trace: the key material handed to onAuth, the
  requests a tick repeats, and the stage a timeout names.
  */
module PppKeys {
  import opened Bytes
  import opened PppOptions
  import opened Ppp
  import opened PppSafety
  import PppExact

  // ---------------------------------------------------------------- reading a trace

  /** A CHAP Success whose proof holds for the challenge in force. */
  ghost predicate Proof(c: Config, before: seq<Item>, x: Item) {
    HeardAs(x, CHAP, 3) && c.crypto.proves(NtFor(c, before), Challenge(before), Heard(x).value.data)
  }

  /** The key material of the last such Success, nothing before the first. */
  ghost function Key(c: Config, t: seq<Item>): seq<byte> {
    if t == [] then []
    else
      var before := t[..|t| - 1];
      if Proof(c, before, t[|t| - 1]) then c.crypto.hlak(NtFor(c, before)) else Key(c, before)
  }

  /** Each onAuth call gets the key material of the trace before it. */
  ghost predicate HooksKeyed(c: Config, t: seq<Item>) {
    forall i :: 0 <= i < |t| && t[i].Hook? ==> t[i].key == Key(c, t[..i])
  }

  /** The latest request of a protocol. */
  function Latest(t: seq<Item>, proto: int): Option<Item> {
    if t == [] then None
    else if IsReq(t[|t| - 1], proto) then Some(t[|t| - 1])
    else Latest(t[..|t| - 1], proto)
  }

  /** x acks the latest LCP request. */
  predicate Settles(before: seq<Item>, x: Item) {
    && HeardAs(x, LCP, CONF_ACK)
    && Latest(before, LCP).Some? && IsReq(Latest(before, LCP).value, LCP)
    && Latest(before, LCP).value.pkt[1] == PeerID(x)
  }

  ghost predicate LcpSettled(t: seq<Item>) {
    exists j :: 0 <= j < |t| && Settles(t[..j], t[j])
  }

  // ---------------------------------------------------------------- one more item

  lemma KeySnoc(c: Config, t: seq<Item>, x: Item)
    ensures Key(c, t + [x]) == if Proof(c, t, x) then c.crypto.hlak(NtFor(c, t)) else Key(c, t)
    ensures HooksKeyed(c, t + [x]) <==> HooksKeyed(c, t) && (x.Hook? ==> x.key == Key(c, t))
  {
    hide Proof, NtFor;
    var u := t + [x];
    assert u[|t|] == x && u[..|t|] == t;
    assert forall j :: 0 <= j < |t| ==> u[j] == t[j] && u[..j] == t[..j];
    if HooksKeyed(c, u) {
      assert forall i :: 0 <= i < |t| && t[i].Hook? ==> u[i].Hook? && u[i].key == Key(c, u[..i]);
    }
  }

  lemma LatestSnoc(t: seq<Item>, x: Item, proto: int)
    ensures Latest(t + [x], proto) == if IsReq(x, proto) then Some(x) else Latest(t, proto)
  {
    assert (t + [x])[..|t|] == t;
  }

  lemma SettledSnoc(t: seq<Item>, x: Item)
    ensures LcpSettled(t + [x]) <==> LcpSettled(t) || Settles(t, x)
    ensures LcpAckedByUs(t + [x]) <==> LcpAckedByUs(t) || IsLcpAckSent(x)
  {
    hide Settles, IsLcpAckSent;
    var u := t + [x];
    assert u[|t|] == x && u[..|t|] == t;
    if LcpSettled(t) {
      var j :| 0 <= j < |t| && Settles(t[..j], t[j]);
      assert u[..j] == t[..j] && u[j] == t[j];
    }
    if LcpSettled(u) {
      var j :| 0 <= j < |u| && Settles(u[..j], u[j]);
      assert j < |t| ==> u[..j] == t[..j] && u[j] == t[j];
    }
    if LcpAckedByUs(t) {
      var i :| 0 <= i < |t| && IsLcpAckSent(t[i]);
      assert IsLcpAckSent(u[i]);
    }
    if LcpAckedByUs(u) {
      var i :| 0 <= i < |u| && IsLcpAckSent(u[i]);
      assert i < |t| ==> u[i] == t[i];
    }
  }

  // ---------------------------------------------------------------- the invariant

  ghost predicate Keyed(c: Config, s: State, t: seq<Item>) {
    && HooksKeyed(c, t) && s.hlak == Key(c, t)
    && Latest(t, LCP) == Some(LcpReq(s))
    && (s.papSent ==> Latest(t, PAP) == Some(PapReq(c, s)))
    && (s.lcpOurOK <==> LcpSettled(t)) && (s.lcpPeerOK <==> LcpAckedByUs(t))
  }

  ghost predicate KeyGood(c: Config, g: Conf) {
    HooksKeyed(c, g.t) && (g.st.Running? ==> Keyed(c, g.st.s, g.t))
  }

  /** The variables Keyed looks at. */
  predicate Alike(s: State, s': State) {
    && s'.hlak == s.hlak && s'.lcpOurs == s.lcpOurs && s'.lcpID == s.lcpID
    && s'.papSent == s.papSent && s'.papID == s.papID
    && s'.lcpOurOK == s.lcpOurOK && s'.lcpPeerOK == s.lcpPeerOK
  }

  /** Items that prove nothing, ask nothing and settle nothing. */
  lemma PlainKeeps(c: Config, s: State, s': State, t: seq<Item>, x: Item)
    requires Keyed(c, s, t) && Alike(s, s')
    requires !Proof(c, t, x) && !IsReq(x, LCP) && !IsReq(x, PAP) && !HeardAs(x, LCP, CONF_ACK)
    requires !IsLcpAckSent(x) && (x.Hook? ==> x.key == s.hlak)
    ensures Keyed(c, s', t + [x])
  {
    hide Proof, Key, HooksKeyed, Latest, IsReq, IsLcpAckSent, LcpSettled, LcpAckedByUs, Pack, Cp;
    KeySnoc(c, t, x);
    LatestSnoc(t, x, LCP);
    LatestSnoc(t, x, PAP);
    SettledSnoc(t, x);
    assert LcpReq(s') == LcpReq(s) && PapReq(c, s') == PapReq(c, s);
  }

  /** A packet sent that is no LCP or PAP request and no LCP Ack. */
  lemma SentKeeps(c: Config, s: State, s': State, t: seq<Item>, x: Item)
    requires Keyed(c, s, t) && Alike(s, s') && x.Sent? && !IsReq(x, LCP) && !IsReq(x, PAP) && !IsLcpAckSent(x)
    ensures Keyed(c, s', t + [x])
  {
    hide Keyed, Alike, IsReq, IsLcpAckSent;
    PlainKeeps(c, s, s', t, x);
  }

  /** Hearing anything but an LCP Ack and a proof. */
  lemma HearKeeps(c: Config, s: State, s': State, t: seq<Item>, ev: Event)
    requires Keyed(c, s, t) && Alike(s, s') && !Proof(c, t, Got(ev)) && !HeardAs(Got(ev), LCP, CONF_ACK)
    ensures Keyed(c, s', t + [Got(ev)])
  {
    hide Keyed, Alike, Proof, HeardAs;
    PlainKeeps(c, s, s', t, Got(ev));
  }

  lemma AlikeItself(s: State)
    ensures Alike(s, s)
  {
  }

  /** A request under the current identifier is the latest one. */
  lemma LcpRequestKeeps(c: Config, s: State, s': State, t: seq<Item>)
    requires Keyed(c, s, t) && Alike(s.(lcpOurs := s'.lcpOurs, lcpID := s'.lcpID), s')
    ensures Keyed(c, s', t + [LcpReq(s')])
  {
    hide Proof, Key, HooksKeyed, Latest, LcpSettled, LcpAckedByUs, Pack;
    var x := LcpReq(s');
    KeySnoc(c, t, x);
    LatestSnoc(t, x, LCP);
    LatestSnoc(t, x, PAP);
    SettledSnoc(t, x);
    assert PapReq(c, s') == PapReq(c, s);
    NotHeard(c, t, x);
  }

  lemma NotHeard(c: Config, t: seq<Item>, x: Item)
    requires !x.Got?
    ensures !Proof(c, t, x) && !Settles(t, x)
  {
  }

  lemma PapRequestKeeps(c: Config, s: State, s': State, t: seq<Item>)
    requires Keyed(c, s, t) && Alike(s.(papSent := true), s')
    ensures Keyed(c, s', t + [PapReq(c, s')])
  {
    hide Proof, Key, HooksKeyed, Latest, LcpSettled, LcpAckedByUs, Pack;
    var x := PapReq(c, s');
    KeySnoc(c, t, x);
    LatestSnoc(t, x, LCP);
    LatestSnoc(t, x, PAP);
    SettledSnoc(t, x);
    assert LcpReq(s') == LcpReq(s);
    NotHeard(c, t, x);
  }

  // ---------------------------------------------------------------- the head of the loop

  lemma HeadKeyed(c: Config, s: State, t: seq<Item>, calls: Calls)
    requires Keyed(c, s, t)
    ensures KeyGood(c, Head(c, s, t, calls))
    ensures var h := Head(c, s, t, calls);
            h.st.Running? && h.st.s.lcpOurOK && h.st.s.lcpPeerOK && h.st.s.authProto == PAP ==> h.st.s.papSent
  {
    hide Keyed, HooksKeyed, HeadAuth, PapReq;
    HeadPapKeyed(c, s, t, calls);
    var a := HeadPap(c, s, t, calls);
    if a.st.Running? {
      HeadAuthKeyed(c, a.st.s, a.t, calls);
      var b := HeadAuth(c, a.st.s, a.t, calls);
      if b.st.Running? { KeyedHooks(c, b.st.s, b.t); }
    }
  }

  lemma KeyedHooks(c: Config, s: State, t: seq<Item>)
    requires Keyed(c, s, t)
    ensures HooksKeyed(c, t)
  {
  }

  lemma HeadPapKeyed(c: Config, s: State, t: seq<Item>, calls: Calls)
    requires Keyed(c, s, t)
    ensures KeyGood(c, HeadPap(c, s, t, calls))
  {
    hide Keyed, HooksKeyed, PapReq;
    KeyedHooks(c, s, t);
    var s' := s.(papSent := true);
    PapRequestKeeps(c, s, s', t);
    KeyedHooks(c, s', t + [PapReq(c, s')]);
  }

  lemma HeadAuthKeyed(c: Config, s: State, t: seq<Item>, calls: Calls)
    requires Keyed(c, s, t)
    ensures KeyGood(c, HeadAuth(c, s, t, calls))
    ensures var h := HeadAuth(c, s, t, calls); h.st.Running? ==> Alike(s, h.st.s) && h.st.s.authProto == s.authProto
  {
    hide Keyed, HooksKeyed, Pack, Proof;
    KeyedHooks(c, s, t);
    var s' := s.(ipcpSent := true);
    var h := Hook(s.hlak);
    NotHeard(c, t, h);
    PlainKeeps(c, s, s, t, h);
    KeyedHooks(c, s, t + [h]);
    var t' := if c.hasHook then t + [h] else t;
    SentKeeps(c, s, s', t', IpcpReq(s'));
    KeyedHooks(c, s', t' + [IpcpReq(s')]);
  }

  // ---------------------------------------------------------------- events

  lemma TickKeyed(c: Config, s: State, u: seq<Item>)
    requires Keyed(c, s, u)
    ensures KeyGood(c, OnTick(c, s, u + [Got(Tick)]))
  {
    hide Keyed, HooksKeyed, PapReq, Pack;
    var t := u + [Got(Tick)];
    AlikeItself(s);
    HearKeeps(c, s, s, u, Tick);
    KeyedHooks(c, s, t);
    if !s.lcpOurOK {
      LcpRequestKeeps(c, s, s, t);
      KeyedHooks(c, s, t + [LcpReq(s)]);
    } else if s.authProto == PAP && !s.authOK {
      PapAgainKeeps(c, s, t);
      KeyedHooks(c, s, t + [PapReq(c, s)]);
    } else if s.ipcpSent && !s.ipcpOurOK {
      SentKeeps(c, s, s, t, IpcpReq(s));
      KeyedHooks(c, s, t + [IpcpReq(s)]);
    }
  }

  /** A PAP request while papSent is still to be set leaves it so. */
  lemma PapAgainKeeps(c: Config, s: State, t: seq<Item>)
    requires Keyed(c, s, t)
    ensures Keyed(c, s, t + [PapReq(c, s)])
  {
    hide Proof, Key, HooksKeyed, Latest, LcpSettled, LcpAckedByUs, Pack;
    var x := PapReq(c, s);
    KeySnoc(c, t, x);
    LatestSnoc(t, x, LCP);
    LatestSnoc(t, x, PAP);
    SettledSnoc(t, x);
    NotHeard(c, t, x);
  }

  lemma LcpReqKeyed(c: Config, s: State, t: seq<Item>, p: Packet)
    requires Keyed(c, s, t)
    ensures KeyGood(c, OnLcpReq(c, s, t, p))
  {
    hide Keyed, HooksKeyed, Pack, Parse, Scan;
    KeyedHooks(c, s, t);
    AlikeItself(s);
    if Parse(p.data).Some? {
      var v := Scan(c, Parse(p.data).value);
      var x := Sent(LCP, AnswerTo(c, p.id, p.data));
      if |v.rej| > 0 || |v.nak| > 0 {
        SentKeeps(c, s, s, t, x);
        KeyedHooks(c, s, t + [x]);
      } else {
        var s' := s.(authProto := v.auth, authOK := s.authOK || v.auth == 0, lcpPeerOK := true);
        AckSentKeeps(c, s, s', t, x);
        KeyedHooks(c, s', t + [x]);
      }
    }
  }

  lemma AckSentKeeps(c: Config, s: State, s': State, t: seq<Item>, x: Item)
    requires Keyed(c, s, t) && Alike(s.(lcpPeerOK := true), s') && IsLcpAckSent(x)
    ensures Keyed(c, s', t + [x])
  {
    hide Proof, Key, HooksKeyed, Latest, LcpSettled, LcpAckedByUs, Pack;
    KeySnoc(c, t, x);
    LatestSnoc(t, x, LCP);
    LatestSnoc(t, x, PAP);
    SettledSnoc(t, x);
    NotHeard(c, t, x);
    assert LcpReq(s') == LcpReq(s) && PapReq(c, s') == PapReq(c, s);
  }

  /** An LCP Ack settles exactly when it carries the current identifier. */
  lemma AckHeardKeeps(c: Config, s: State, u: seq<Item>, f: seq<byte>, p: Packet)
    requires Keyed(c, s, u) && Decode(f) == Some(p) && p.proto == LCP && p.code == CONF_ACK
    ensures Keyed(c, if p.id == s.lcpID then s.(lcpOurOK := true) else s, u + [Got(Frame(f))])
  {
    hide Key, HooksKeyed, Latest, LcpSettled, LcpAckedByUs, Pack, Decode, PapReq;
    var x := Got(Frame(f));
    KeySnoc(c, u, x);
    LatestSnoc(u, x, LCP);
    LatestSnoc(u, x, PAP);
    SettledSnoc(u, x);
    var s' := s.(lcpOurOK := true);
    assert LcpReq(s') == LcpReq(s) && PapReq(c, s') == PapReq(c, s) by { PapReqSame(c, s, s'); }
    assert Settles(u, x) <==> p.id == s.lcpID;
  }

  lemma PapReqSame(c: Config, s: State, s': State)
    requires s'.papID == s.papID
    ensures PapReq(c, s') == PapReq(c, s)
  {
  }

  lemma LcpKeyed(c: Config, s: State, u: seq<Item>, f: seq<byte>, p: Packet)
    requires Keyed(c, s, u) && Decode(f) == Some(p) && p.proto == LCP
    ensures KeyGood(c, OnLcp(c, s, u + [Got(Frame(f))], p))
  {
    hide Keyed, HooksKeyed, Decode, OnLcpReq, Pack, RewriteLcp, Lenient;
    var t := u + [Got(Frame(f))];
    AlikeItself(s);
    if p.code == CONF_ACK {
      AckHeardKeeps(c, s, u, f, p);
      KeyedHooks(c, if p.id == s.lcpID then s.(lcpOurOK := true) else s, t);
    } else {
      HearKeeps(c, s, s, u, Frame(f));
      KeyedHooks(c, s, t);
      if p.code == CONF_REQ {
        LcpReqKeyed(c, s, t, p);
      } else if (p.code == CONF_NAK || p.code == CONF_REJ) && p.id == s.lcpID {
        var s' := OnLcpRefusal(s, t, p).st.s;
        LcpRequestKeeps(c, s, s', t);
        KeyedHooks(c, s', t + [LcpReq(s')]);
      } else if p.code == ECHO_REQ {
        var x := Sent(LCP, Cp(ECHO_REPLY, p.id, c.magic));
        SentKeeps(c, s, s, t, x);
        KeyedHooks(c, s, t + [x]);
      } else if p.code == TERM_REQ {
        var x := Sent(LCP, Cp(TERM_ACK, p.id, []));
        SentKeeps(c, s, s, t, x);
        KeyedHooks(c, s, t + [x]);
      }
    }
  }

  lemma PapKeyed(c: Config, s: State, u: seq<Item>, f: seq<byte>, p: Packet)
    requires Keyed(c, s, u) && Decode(f) == Some(p) && p.proto == PAP
    ensures KeyGood(c, OnPap(s, u + [Got(Frame(f))], p))
  {
    hide Keyed, HooksKeyed, Decode;
    var t := u + [Got(Frame(f))];
    HearKeeps(c, s, s, u, Frame(f));
    HearKeeps(c, s, s.(authOK := true), u, Frame(f));
    KeyedHooks(c, s, t);
  }

  /** A proved Success sets the key material. */
  lemma ProofKeeps(c: Config, s: State, u: seq<Item>, f: seq<byte>, p: Packet)
    requires Inv(c, s, u) && Keyed(c, s, u) && Decode(f) == Some(p) && p.proto == CHAP && p.code == 3
    requires c.crypto.proves(s.nt, s.authChal, p.data)
    ensures Keyed(c, s.(hlak := c.crypto.hlak(s.nt), authOK := true), u + [Got(Frame(f))])
  {
    hide Key, HooksKeyed, Latest, LcpSettled, LcpAckedByUs, Pack, Decode, NtFor, Challenge, Core, TraceOk;
    var x := Got(Frame(f));
    var s' := s.(hlak := c.crypto.hlak(s.nt), authOK := true);
    KeySnoc(c, u, x);
    LatestSnoc(u, x, LCP);
    LatestSnoc(u, x, PAP);
    SettledSnoc(u, x);
    assert LcpReq(s') == LcpReq(s) && PapReq(c, s') == PapReq(c, s);
  }

  lemma ChapKeyed(c: Config, s: State, u: seq<Item>, f: seq<byte>, p: Packet)
    requires Inv(c, s, u) && Keyed(c, s, u) && Decode(f) == Some(p) && p.proto == CHAP
    ensures KeyGood(c, OnChap(c, s, u + [Got(Frame(f))], p))
  {
    hide Keyed, HooksKeyed, Decode, ChapResponse, Core, TraceOk, NtFor, Challenge;
    var t := u + [Got(Frame(f))];
    if p.code == 3 && c.crypto.proves(s.nt, s.authChal, p.data) {
      ProofKeeps(c, s, u, f, p);
      KeyedHooks(c, s.(hlak := c.crypto.hlak(s.nt), authOK := true), t);
    } else {
      HearKeeps(c, s, s, u, Frame(f));
      KeyedHooks(c, s, t);
      if GoodChallenge(p) {
        var nt := c.crypto.ntResponse(p.data[1..17]);
        var s' := s.(authProto := CHAP, authChal := p.data[1..17], nt := nt);
        var x := Sent(CHAP, Cp(2, p.id, ChapResponse(c, nt)));
        SentKeeps(c, s, s', t, x);
        KeyedHooks(c, s', t + [x]);
      }
    }
  }

  lemma IpcpKeyed(c: Config, s: State, u: seq<Item>, f: seq<byte>, p: Packet)
    requires Keyed(c, s, u) && Decode(f) == Some(p) && p.proto == IPCP
    ensures KeyGood(c, OnIpcp(s, u + [Got(Frame(f))], p))
  {
    hide Keyed, HooksKeyed, Decode, Pack, Parse, RewriteIpcp, Lenient, NotAddr;
    var t := u + [Got(Frame(f))];
    var g := OnIpcp(s, t, p);
    HearKeeps(c, s, s, u, Frame(f));
    KeyedHooks(c, s, t);
    if g.st.Running? {
      assert Alike(s, g.st.s);
      if |g.t| == |t| {
        HearKeeps(c, s, g.st.s, u, Frame(f));
      } else {
        var x := g.t[|t|];
        assert g.t == t + [x];
        SentKeeps(c, s, g.st.s, t, x);
        KeyedHooks(c, g.st.s, g.t);
      }
    }
  }

  lemma OtherKeyed(c: Config, s: State, u: seq<Item>, f: seq<byte>, p: Packet)
    requires Keyed(c, s, u) && Decode(f) == Some(p) && p.proto != LCP && p.proto != CHAP
    ensures KeyGood(c, OnOther(s, u + [Got(Frame(f))], p))
  {
    hide Keyed, HooksKeyed, Decode;
    var t := u + [Got(Frame(f))];
    AlikeItself(s);
    HearKeeps(c, s, s, u, Frame(f));
    var g := OnOther(s, t, p);
    SentKeeps(c, s, g.st.s, t, g.t[|t|]);
    KeyedHooks(c, g.st.s, g.t);
  }

  lemma EventKeyed(c: Config, s: State, u: seq<Item>, ev: Event)
    requires Inv(c, s, u) && Keyed(c, s, u)
    ensures KeyGood(c, OnEvent(c, s, u, ev))
  {
    hide Inv, Keyed, HooksKeyed, Decode, OnLcp, OnPap, OnChap, OnIpcp, OnOther, OnTick;
    if ev.Frame? && Decode(ev.f).Some? {
      var f, p := ev.f, Decode(ev.f).value;
      if p.proto == LCP { LcpKeyed(c, s, u, f, p); }
      else if p.proto == PAP { PapKeyed(c, s, u, f, p); }
      else if p.proto == CHAP { ChapKeyed(c, s, u, f, p); }
      else if p.proto == IPCP { IpcpKeyed(c, s, u, f, p); }
      else { OtherKeyed(c, s, u, f, p); }
    } else {
      AlikeItself(s);
      HearKeeps(c, s, s, u, ev);
      KeyedHooks(c, s, u + [Got(ev)]);
      if ev.Tick? { TickKeyed(c, s, u); }
    }
  }

  lemma BootKeyed(c: Config, bootOk: bool)
    ensures KeyGood(c, Boot(c, bootOk))
  {
    hide Pack, Cp, Proof, Key, HooksKeyed, Latest, LcpSettled, LcpAckedByUs, Settles;
    var s := Start(c);
    var x := LcpReq(s);
    assert [] + [x] == [x];
    NothingKeyed(c);
    KeySnoc(c, [], x);
    LatestSnoc([], x, LCP);
    SettledSnoc([], x);
    NotHeard(c, [], x);
    RequestIsRequest(s);
    assert [x] == Boot(c, bootOk).t;
  }

  lemma NothingKeyed(c: Config)
    ensures HooksKeyed(c, []) && Key(c, []) == [] && !LcpSettled([]) && !LcpAckedByUs([])
  {
  }

  lemma RequestIsRequest(s: State)
    ensures IsReq(LcpReq(s), LCP) && !IsLcpAckSent(LcpReq(s))
  {
    hide Pack;
  }

  lemma {:induction false} RunKeyed(c: Config, bootOk: bool, ins: seq<Input>)
    ensures KeyGood(c, Run(c, bootOk, ins))
  {
    hide Inv, TraceOk, LinkOk, Keyed, HooksKeyed, Boot, Head, OnEvent;
    if ins == [] {
      BootKeyed(c, bootOk);
    } else {
      var init, i := ins[..|ins| - 1], ins[|ins| - 1];
      var g := Run(c, bootOk, init);
      RunKeyed(c, bootOk, init);
      RunGood(c, bootOk, init);
      if g.st.Running? {
        HeadKeyed(c, g.st.s, g.t, i.calls);
        HeadKeeps(c, g.st.s, g.t, i.calls);
        var h := Head(c, g.st.s, g.t, i.calls);
        if h.st.Running? { EventKeyed(c, h.st.s, h.t, i.ev); }
      }
    }
  }

  // ---------------------------------------------------------------- main results

  /**
    In every run each onAuth call is given the key material of the last CHAP Success before it
    whose proof held, computed from the challenge then in force, and nothing if there was none.
    */
  lemma KeyIsProved(c: Config, bootOk: bool, ins: seq<Input>, i: nat)
    requires i < |Run(c, bootOk, ins).t| && Run(c, bootOk, ins).t[i].Hook?
    ensures Run(c, bootOk, ins).t[i].key == Key(c, Run(c, bootOk, ins).t[..i])
  {
    hide Run, Keyed, Key;
    RunKeyed(c, bootOk, ins);
  }

  /** What is known once the head of a round has passed. */
  lemma HeadKnown(c: Config, bootOk: bool, ins: seq<Input>, calls: Calls)
    requires var g := Run(c, bootOk, ins); g.st.Running? && Head(c, g.st.s, g.t, calls).st.Running?
    ensures var g := Run(c, bootOk, ins);
            var h := Head(c, g.st.s, g.t, calls);
            && Keyed(c, h.st.s, h.t) && Inv(c, h.st.s, h.t) && PppExact.Exact(c, h.st.s, h.t)
            && (h.st.s.lcpOurOK && h.st.s.lcpPeerOK && h.st.s.authProto == PAP ==> h.st.s.papSent)
  {
    hide Run, Head, Inv, Keyed, HooksKeyed, PppExact.Exact, TraceOk, LinkOk, PppExact.TraceExact;
    RunKeyed(c, bootOk, ins);
    PppExact.RunExact(c, bootOk, ins);
    var g := Run(c, bootOk, ins);
    HeadKeyed(c, g.st.s, g.t, calls);
    HeadKeeps(c, g.st.s, g.t, calls);
    PppExact.HeadExact(c, g.st.s, g.t, calls);
  }

  /**
    In every run a tick sends again, unchanged, the latest request still to be answered: LCP until
    it is acked, then PAP until authentication, then IPCP until it is acked.
    */
  lemma TickResends(c: Config, bootOk: bool, ins: seq<Input>, calls: Calls)
    requires var g := Run(c, bootOk, ins); g.st.Running? && Head(c, g.st.s, g.t, calls).st.Running?
    ensures var g := Run(c, bootOk, ins);
            var h := Head(c, g.st.s, g.t, calls);
            var r := Round(c, g, Input(calls, Tick));
            var again := if !LcpSettled(h.t) then Latest(h.t, LCP)
                         else if h.st.s.authProto == PAP && !Authenticated(c, h.t) then Latest(h.t, PAP)
                         else if Asked(h.t).Some? && h.st.s.ipcpSent && !h.st.s.ipcpOurOK then Asked(h.t)
                         else None;
            r.st == h.st && r.t == h.t + [Got(Tick)] + if again.Some? then [again.value] else []
  {
    hide Run, Head, HooksKeyed, Key, Latest, LcpSettled, Authenticated, Asked, Hooks, TraceOk, Shape, AckedCurrent,
         Challenge, NtFor, Answers, Steady, LcpAckedByPeer, PppExact.TraceExact, PppExact.Premature, Pack;
    HeadKnown(c, bootOk, ins, calls);
    var g := Run(c, bootOk, ins);
    var h := Head(c, g.st.s, g.t, calls);
    assert h.t + [Got(Tick)] + [] == h.t + [Got(Tick)];
  }

  /** The stage a timeout names: IPCP once authenticated, before that authentication once LCP is acked both ways. */
  lemma TimeoutNames(c: Config, bootOk: bool, ins: seq<Input>, calls: Calls)
    requires var g := Run(c, bootOk, ins); g.st.Running? && Head(c, g.st.s, g.t, calls).st.Running?
    ensures var g := Run(c, bootOk, ins);
            var t := Head(c, g.st.s, g.t, calls).t;
            Round(c, g, Input(calls, Deadline)).st ==
            Failed(Timeout(if Authenticated(c, t) then IpcpStage
                           else if LcpSettled(t) && LcpAckedByUs(t) then AuthStage
                           else LcpStage))
  {
    hide Run, Head, Inv, HooksKeyed, Key, Latest, LcpSettled, LcpAckedByUs, Authenticated, Asked, PppExact.TraceExact;
    HeadKnown(c, bootOk, ins, calls);
  }
}
