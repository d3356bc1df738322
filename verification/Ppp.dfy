/**
  pppNegotiate: LCP, authentication and IPCP as one event loop.  A step takes the
  state and the trace of what has been heard and sent, and extends both; the
  methods run the same steps with the loops of the source.
  */
module Ppp {
  import opened Bytes
  import opened PppOptions

  const LCP := 0xc021
  const PAP := 0xc023
  const CHAP := 0xc223
  const IPCP := 0x8021
  const CHAP_MSV2 := 0x81
  const LCP_MRU: byte := 1
  const LCP_ACCM: byte := 2
  const LCP_AUTH: byte := 3
  const LCP_MAGIC: byte := 5
  const IPCP_ADDR: byte := 3
  const IPCP_DNS1: byte := 129
  const IPCP_DNS2: byte := 131
  const CONF_REQ: byte := 1
  const CONF_ACK: byte := 2
  const CONF_NAK: byte := 3
  const CONF_REJ: byte := 4
  const TERM_REQ: byte := 5
  const TERM_ACK: byte := 6
  const PROTO_REJ: byte := 8
  const ECHO_REQ: byte := 9
  const ECHO_REPLY: byte := 10

  /** Any other setting of the auth flag behaves as Auto. */
  datatype Auth = Auto | OnlyPap | OnlyMsChap

  /** The MS-CHAPv2 computations, with user, password and peer challenge fixed. */
  datatype Crypto = Crypto(
    ntResponse: seq<byte> -> seq<byte>,
    proves: (seq<byte>, seq<byte>, seq<byte>) -> bool,
    hlak: seq<byte> -> seq<byte>)

  datatype Config = Config(user: seq<byte>, pass: seq<byte>, auth: Auth, mtu: int,
                           magic: seq<byte>, peerChal: seq<byte>, hasHook: bool, crypto: Crypto)

  datatype State = State(
    lcpOurs: seq<Opt>, lcpOurOK: bool, lcpPeerOK: bool, authProto: int, authOK: bool, papSent: bool,
    ipcpOurs: seq<Opt>, ipcpOurOK: bool, ipcpPeerOK: bool, ipcpSent: bool,
    id: byte, lcpID: byte, ipcpID: byte, papID: byte,
    nt: seq<byte>, authChal: seq<byte>, hlak: seq<byte>)

  datatype Event = Frame(f: seq<byte>) | Tick | Closed | Deadline

  /** Whether the fallible calls at the head of the loop succeed in this round. */
  datatype Calls = Calls(papOk: bool, hookOk: bool, ipcpOk: bool)

  datatype Input = Input(calls: Calls, ev: Event)

  datatype Item = Got(ev: Event) | Sent(proto: int, pkt: seq<byte>) | Hook(key: seq<byte>)

  datatype Link = Link(local: Option<seq<byte>>, dns: seq<Option<seq<byte>>>)

  datatype Stage = LcpStage | AuthStage | IpcpStage

  datatype Failure =
    | SendFailed | HookFailed | NoAddress | ConnectionClosed | Timeout(stage: Stage) | Terminated
    | PapRefused | BadChallenge | BadProof | ChapRefused | AddressRejected

  datatype Status = Running(s: State) | Up(link: Link) | Failed(why: Failure)

  datatype Conf = Conf(st: Status, t: seq<Item>)

  // ---------------------------------------------------------------- requests

  function LcpReq(s: State): Item { Sent(LCP, Cp(CONF_REQ, s.lcpID, Pack(s.lcpOurs))) }

  function IpcpReq(s: State): Item { Sent(IPCP, Cp(CONF_REQ, s.ipcpID, Pack(s.ipcpOurs))) }

  function PapReq(c: Config, s: State): Item {
    Sent(PAP, Cp(1, s.papID, [|c.user| % 256] + c.user + [|c.pass| % 256] + c.pass))
  }

  function NextID(id: byte): byte { (id + 1) % 256 }

  function Start(c: Config): State {
    var mru := if c.mtu <= 0 then 1400 else c.mtu;
    State([Opt(LCP_MRU, Put16(mru)), Opt(LCP_MAGIC, c.magic)], false, false, 0, false, false,
          [Opt(IPCP_ADDR, Zeros(4)), Opt(IPCP_DNS1, Zeros(4)), Opt(IPCP_DNS2, Zeros(4))], false, false, false,
          4, 2, 3, 4, [], [], [])
  }

  // ---------------------------------------------------------------- the head of the loop

  function HeadPap(c: Config, s: State, t: seq<Item>, calls: Calls): Conf {
    if s.lcpOurOK && s.lcpPeerOK && s.authProto == PAP && !s.papSent then
      var s' := s.(papSent := true);
      Conf(if calls.papOk then Running(s') else Failed(SendFailed), t + [PapReq(c, s')])
    else Conf(Running(s), t)
  }

  function HeadAuth(c: Config, s: State, t: seq<Item>, calls: Calls): Conf {
    if s.authOK && !s.ipcpSent then
      var s' := s.(ipcpSent := true);
      var t' := if c.hasHook then t + [Hook(s.hlak)] else t;
      if c.hasHook && !calls.hookOk then Conf(Failed(HookFailed), t')
      else Conf(if calls.ipcpOk then Running(s') else Failed(SendFailed), t' + [IpcpReq(s')])
    else Conf(Running(s), t)
  }

  function ToAddr(v: seq<byte>): Option<seq<byte>> {
    if |v| == 4 || |v| == 16 then Some(v) else None
  }

  predicate Unspecified(a: Option<seq<byte>>) {
    a.Some? && forall i :: 0 <= i < |a.value| ==> a.value[i] == 0
  }

  /** The loop over ipcpOurs that fills the returned link. */
  function ReadLink(o: seq<Opt>): Link {
    if o == [] then Link(None, [])
    else
      var l := ReadLink(o[..|o| - 1]);
      var x := o[|o| - 1];
      var a := ToAddr(x.v);
      if x.t == IPCP_ADDR then l.(local := a)
      else if (x.t == IPCP_DNS1 || x.t == IPCP_DNS2) && !Unspecified(a) then l.(dns := l.dns + [a])
      else l
  }

  function HeadLink(s: State, t: seq<Item>): Conf {
    if s.ipcpOurOK && s.ipcpPeerOK then
      var l := ReadLink(s.ipcpOurs);
      Conf(if l.local.None? || Unspecified(l.local) then Failed(NoAddress) else Up(l), t)
    else Conf(Running(s), t)
  }

  function Head(c: Config, s: State, t: seq<Item>, calls: Calls): Conf {
    var a := HeadPap(c, s, t, calls);
    if !a.st.Running? then a
    else
      var b := HeadAuth(c, a.st.s, a.t, calls);
      if !b.st.Running? then b else HeadLink(b.st.s, b.t)
  }

  // ---------------------------------------------------------------- events

  function OnTick(c: Config, s: State, t: seq<Item>): Conf {
    if !s.lcpOurOK then Conf(Running(s), t + [LcpReq(s)])
    else if s.authProto == PAP && !s.authOK then Conf(Running(s), t + [PapReq(c, s)])
    else if s.ipcpSent && !s.ipcpOurOK then Conf(Running(s), t + [IpcpReq(s)])
    else Conf(Running(s), t)
  }

  function TimeoutStage(s: State): Stage {
    if s.lcpOurOK && s.lcpPeerOK && !s.authOK then AuthStage else if s.authOK then IpcpStage else LcpStage
  }

  predicate WantAuth(c: Config, proto: int, algo: byte) {
    match c.auth
    case OnlyPap => proto == PAP
    case OnlyMsChap => proto == CHAP && algo == CHAP_MSV2
    case Auto => proto == PAP || (proto == CHAP && algo == CHAP_MSV2)
  }

  function Preferred(c: Config): seq<byte> {
    if c.auth == OnlyPap then [0xc0, 0x23] else [0xc2, 0x23, CHAP_MSV2]
  }

  datatype Verdict = Verdict(rej: seq<Opt>, nak: seq<Opt>, auth: int)

  function Judge(c: Config, v: Verdict, x: Opt): Verdict {
    if x.t == LCP_MRU || x.t == LCP_ACCM || x.t == LCP_MAGIC then v
    else if x.t == LCP_AUTH && |x.v| >= 2 then
      var algo: byte := if |x.v| > 2 then x.v[2] else 0;
      if WantAuth(c, Get16(x.v), algo) then v.(auth := Get16(x.v))
      else v.(nak := v.nak + [Opt(LCP_AUTH, Preferred(c))])
    else v.(rej := v.rej + [x])
  }

  /** The scan of the peer's LCP options. */
  function Scan(c: Config, opts: seq<Opt>): Verdict {
    if opts == [] then Verdict([], [], 0)
    else Judge(c, Scan(c, opts[..|opts| - 1]), opts[|opts| - 1])
  }

  /** The packet that answers a Configure-Request carrying these option bytes. */
  function AnswerTo(c: Config, id: byte, data: seq<byte>): seq<byte>
    requires Parse(data).Some?
  {
    var v := Scan(c, Parse(data).value);
    if |v.rej| > 0 then Cp(CONF_REJ, id, Pack(v.rej))
    else if |v.nak| > 0 then Cp(CONF_NAK, id, Pack(v.nak))
    else Cp(CONF_ACK, id, data)
  }

  function OnLcpReq(c: Config, s: State, t: seq<Item>, p: Packet): Conf {
    if Parse(p.data).None? then Conf(Running(s), t)
    else
      var v := Scan(c, Parse(p.data).value);
      Conf(Running(if |v.rej| > 0 || |v.nak| > 0 then s
                   else s.(authProto := v.auth, authOK := s.authOK || v.auth == 0, lcpPeerOK := true)),
           t + [Sent(LCP, AnswerTo(c, p.id, p.data))])
  }

  /** The index of the first option of the given type, or the length of the list. */
  function Find(o: seq<Opt>, t: byte): (i: nat)
    ensures i <= |o| && (i < |o| ==> o[i].t == t)
    ensures forall k :: 0 <= k < i ==> o[k].t != t
  {
    if o == [] then 0 else if o[0].t == t then 0 else 1 + Find(o[1..], t)
  }

  function AmendLcp(rejected: bool, ours: seq<Opt>, x: Opt): seq<Opt> {
    var i := Find(ours, x.t);
    if i == |ours| then ours
    else if rejected then ours[..i] + ours[i + 1..]
    else ours[i := ours[i].(v := x.v)]
  }

  function RewriteLcp(rejected: bool, ours: seq<Opt>, opts: seq<Opt>): seq<Opt> {
    if opts == [] then ours
    else AmendLcp(rejected, RewriteLcp(rejected, ours, opts[..|opts| - 1]), opts[|opts| - 1])
  }

  /** An option list that fails to parse counts as empty. */
  function Lenient(data: seq<byte>): seq<Opt> {
    match Parse(data) case None => [] case Some(o) => o
  }

  /** A Nak or Reject of our current LCP request. */
  function OnLcpRefusal(s: State, t: seq<Item>, p: Packet): Conf {
    var s' := s.(lcpOurs := RewriteLcp(p.code == CONF_REJ, s.lcpOurs, Lenient(p.data)),
                 id := NextID(s.id), lcpID := NextID(s.id));
    Conf(Running(s'), t + [LcpReq(s')])
  }

  function OnLcp(c: Config, s: State, t: seq<Item>, p: Packet): Conf {
    if p.code == CONF_REQ then OnLcpReq(c, s, t, p)
    else if p.code == CONF_ACK then
      Conf(Running(if p.id == s.lcpID then s.(lcpOurOK := true) else s), t)
    else if p.code == CONF_NAK || p.code == CONF_REJ then
      if p.id != s.lcpID then Conf(Running(s), t) else OnLcpRefusal(s, t, p)
    else if p.code == ECHO_REQ then Conf(Running(s), t + [Sent(LCP, Cp(ECHO_REPLY, p.id, c.magic))])
    else if p.code == TERM_REQ then Conf(Failed(Terminated), t + [Sent(LCP, Cp(TERM_ACK, p.id, []))])
    else Conf(Running(s), t)
  }

  function OnPap(s: State, t: seq<Item>, p: Packet): Conf {
    if p.id != s.papID then Conf(Running(s), t)
    else if p.code == 2 then Conf(Running(s.(authOK := true)), t)
    else if p.code == 3 then Conf(Failed(PapRefused), t)
    else Conf(Running(s), t)
  }

  predicate GoodChallenge(p: Packet) {
    p.proto == CHAP && p.code == 1 && |p.data| >= 17 && p.data[0] == 16
  }

  function ChapResponse(c: Config, nt: seq<byte>): seq<byte> {
    [49] + CopyInto(CopyInto(Zeros(49), 0, 49, c.peerChal), 24, 49, nt) + c.user
  }

  function OnChap(c: Config, s: State, t: seq<Item>, p: Packet): Conf
    requires p.proto == CHAP
  {
    if p.code == 1 then
      if !GoodChallenge(p) then Conf(Failed(BadChallenge), t)
      else
        var chal := p.data[1..17];
        var nt := c.crypto.ntResponse(chal);
        Conf(Running(s.(authProto := CHAP, authChal := chal, nt := nt)),
             t + [Sent(CHAP, Cp(2, p.id, ChapResponse(c, nt)))])
    else if p.code == 3 then
      if !c.crypto.proves(s.nt, s.authChal, p.data) then Conf(Failed(BadProof), t)
      else Conf(Running(s.(hlak := c.crypto.hlak(s.nt), authOK := true)), t)
    else if p.code == 4 then Conf(Failed(ChapRefused), t)
    else Conf(Running(s), t)
  }

  function NotAddr(opts: seq<Opt>): seq<Opt> {
    if opts == [] then []
    else
      var r := NotAddr(opts[..|opts| - 1]);
      if opts[|opts| - 1].t != IPCP_ADDR then r + [opts[|opts| - 1]] else r
  }

  function OnIpcpReq(s: State, t: seq<Item>, p: Packet): Conf {
    match Parse(p.data)
    case None => Conf(Running(s), t)
    case Some(opts) =>
      var rej := NotAddr(opts);
      if |rej| > 0 then Conf(Running(s), t + [Sent(IPCP, Cp(CONF_REJ, p.id, Pack(rej)))])
      else Conf(Running(s.(ipcpPeerOK := true)), t + [Sent(IPCP, Cp(CONF_ACK, p.id, p.data))])
  }

  /** One option of an IPCP Nak or Reject; None when the address itself is rejected. */
  function AmendIpcp(rejected: bool, ours: seq<Opt>, x: Opt): Option<seq<Opt>> {
    var i := Find(ours, x.t);
    if i == |ours| then Some(ours)
    else if rejected then (if x.t == IPCP_ADDR then None else Some(ours[..i] + ours[i + 1..]))
    else if |x.v| == 4 then Some(ours[i := ours[i].(v := x.v)])
    else Some(ours)
  }

  function RewriteIpcp(rejected: bool, ours: seq<Opt>, opts: seq<Opt>): Option<seq<Opt>> {
    if opts == [] then Some(ours)
    else
      match RewriteIpcp(rejected, ours, opts[..|opts| - 1])
      case None => None
      case Some(o) => AmendIpcp(rejected, o, opts[|opts| - 1])
  }

  /** A Nak or Reject of our current IPCP request. */
  function OnIpcpRefusal(s: State, t: seq<Item>, p: Packet): Conf {
    match RewriteIpcp(p.code == CONF_REJ, s.ipcpOurs, Lenient(p.data))
    case None => Conf(Failed(AddressRejected), t)
    case Some(o) =>
      var s' := s.(ipcpOurs := o, id := NextID(s.id), ipcpID := NextID(s.id));
      Conf(Running(s'), t + [IpcpReq(s')])
  }

  function OnIpcp(s: State, t: seq<Item>, p: Packet): Conf {
    if p.code == CONF_REQ then OnIpcpReq(s, t, p)
    else if p.code == CONF_ACK then
      Conf(Running(if p.id == s.ipcpID then s.(ipcpOurOK := true) else s), t)
    else if p.code == CONF_NAK || p.code == CONF_REJ then
      if p.id != s.ipcpID then Conf(Running(s), t) else OnIpcpRefusal(s, t, p)
    else Conf(Running(s), t)
  }

  function OnOther(s: State, t: seq<Item>, p: Packet): Conf {
    var s' := s.(id := NextID(s.id));
    Conf(Running(s'), t + [Sent(LCP, Cp(PROTO_REJ, s'.id, Put16(p.proto) + p.body))])
  }

  function OnPacket(c: Config, s: State, t: seq<Item>, p: Packet): Conf {
    if p.proto == LCP then OnLcp(c, s, t, p)
    else if p.proto == PAP then OnPap(s, t, p)
    else if p.proto == CHAP then OnChap(c, s, t, p)
    else if p.proto == IPCP then OnIpcp(s, t, p)
    else OnOther(s, t, p)
  }

  function OnEvent(c: Config, s: State, t: seq<Item>, ev: Event): Conf {
    var t' := t + [Got(ev)];
    match ev
    case Closed => Conf(Failed(ConnectionClosed), t')
    case Deadline => Conf(Failed(Timeout(TimeoutStage(s))), t')
    case Tick => OnTick(c, s, t')
    case Frame(f) =>
      match Decode(f)
      case None => Conf(Running(s), t')
      case Some(p) => OnPacket(c, s, t', p)
  }

  /** The first request; bootOk is whether sending it succeeds. */
  function Boot(c: Config, bootOk: bool): Conf {
    Conf(if bootOk then Running(Start(c)) else Failed(SendFailed), [LcpReq(Start(c))])
  }

  function Round(c: Config, g: Conf, i: Input): Conf {
    if !g.st.Running? then g
    else
      var h := Head(c, g.st.s, g.t, i.calls);
      if !h.st.Running? then h else OnEvent(c, h.st.s, h.t, i.ev)
  }

  /** Where the negotiation stands after these rounds. */
  function Run(c: Config, bootOk: bool, ins: seq<Input>): Conf {
    if ins == [] then Boot(c, bootOk)
    else Round(c, Run(c, bootOk, ins[..|ins| - 1]), ins[|ins| - 1])
  }

  // ---------------------------------------------------------------- the loops of the source

  method ScanLcpOptions(c: Config, opts: seq<Opt>) returns (rej: seq<Opt>, nak: seq<Opt>, auth: int)
    ensures Verdict(rej, nak, auth) == Scan(c, opts)
  {
    rej, nak, auth := [], [], 0;
    for i := 0 to |opts|
      invariant Verdict(rej, nak, auth) == Scan(c, opts[..i])
    {
      assert opts[..i + 1][..i] == opts[..i];
      var x := opts[i];
      if x.t == LCP_MRU || x.t == LCP_ACCM || x.t == LCP_MAGIC {
      } else if x.t == LCP_AUTH {
        if |x.v| < 2 {
          rej := rej + [x];
          continue;
        }
        var pp := Get16(x.v);
        var algo: byte := 0;
        if |x.v| > 2 { algo := x.v[2]; }
        if WantAuth(c, pp, algo) {
          auth := pp;
        } else {
          nak := nak + [Opt(LCP_AUTH, Preferred(c))];
        }
      } else {
        rej := rej + [x];
      }
    }
    assert opts[..|opts|] == opts;
  }

  method FindOption(o: seq<Opt>, t: byte) returns (i: nat)
    ensures i == Find(o, t)
  {
    i := 0;
    while i < |o| && o[i].t != t
      invariant i <= |o|
      invariant Find(o, t) == i + Find(o[i..], t)
    {
      assert o[i..][1..] == o[i + 1..];
      i := i + 1;
    }
  }

  method RewriteLcpOptions(rejected: bool, ours0: seq<Opt>, opts: seq<Opt>) returns (ours: seq<Opt>)
    ensures ours == RewriteLcp(rejected, ours0, opts)
  {
    ours := ours0;
    for k := 0 to |opts|
      invariant ours == RewriteLcp(rejected, ours0, opts[..k])
    {
      assert opts[..k + 1][..k] == opts[..k];
      var i := FindOption(ours, opts[k].t);
      if i < |ours| {
        if rejected {
          ours := ours[..i] + ours[i + 1..];
        } else {
          ours := ours[i := ours[i].(v := opts[k].v)];
        }
      }
    }
    assert opts[..|opts|] == opts;
  }

  lemma {:induction false} RewriteStopped(rejected: bool, ours: seq<Opt>, opts: seq<Opt>, k: nat)
    requires k <= |opts| && RewriteIpcp(rejected, ours, opts[..k]).None?
    ensures RewriteIpcp(rejected, ours, opts).None?
    decreases |opts| - k
  {
    if k == |opts| {
      assert opts[..k] == opts;
    } else {
      assert opts[..k + 1][..k] == opts[..k];
      RewriteStopped(rejected, ours, opts, k + 1);
    }
  }

  method RewriteIpcpOptions(rejected: bool, ours0: seq<Opt>, opts: seq<Opt>) returns (r: Option<seq<Opt>>)
    ensures r == RewriteIpcp(rejected, ours0, opts)
  {
    var ours := ours0;
    for k := 0 to |opts|
      invariant RewriteIpcp(rejected, ours0, opts[..k]) == Some(ours)
    {
      assert opts[..k + 1][..k] == opts[..k];
      var x := opts[k];
      var i := FindOption(ours, x.t);
      if i < |ours| {
        if rejected {
          if x.t == IPCP_ADDR {
            RewriteStopped(rejected, ours0, opts, k + 1);
            return None;
          }
          ours := ours[..i] + ours[i + 1..];
        } else if |x.v| == 4 {
          ours := ours[i := ours[i].(v := x.v)];
        }
      }
    }
    assert opts[..|opts|] == opts;
    return Some(ours);
  }

  method RejectedByIpcp(opts: seq<Opt>) returns (rej: seq<Opt>)
    ensures rej == NotAddr(opts)
  {
    rej := [];
    for i := 0 to |opts|
      invariant rej == NotAddr(opts[..i])
    {
      assert opts[..i + 1][..i] == opts[..i];
      if opts[i].t != IPCP_ADDR { rej := rej + [opts[i]]; }
    }
    assert opts[..|opts|] == opts;
  }

  method LinkFrom(o: seq<Opt>) returns (l: Link)
    ensures l == ReadLink(o)
  {
    var local: Option<seq<byte>>, dns: seq<Option<seq<byte>>> := None, [];
    for i := 0 to |o|
      invariant Link(local, dns) == ReadLink(o[..i])
    {
      assert o[..i + 1][..i] == o[..i];
      var a := ToAddr(o[i].v);
      if o[i].t == IPCP_ADDR {
        local := a;
      } else if o[i].t == IPCP_DNS1 || o[i].t == IPCP_DNS2 {
        if !Unspecified(a) { dns := dns + [a]; }
      }
    }
    assert o[..|o|] == o;
    l := Link(local, dns);
  }

  method HandleLcpReq(c: Config, s: State, t: seq<Item>, p: Packet) returns (g: Conf)
    ensures g == OnLcpReq(c, s, t, p)
  {
    hide Pack, Parse, Scan, Cp;
    var opts := ParseOpts(p.data);
    if opts.None? { return Conf(Running(s), t); }
    var rej, nak, auth := ScanLcpOptions(c, opts.value);
    if |rej| > 0 {
      var b := PackOpts(rej);
      g := Conf(Running(s), t + [Sent(LCP, Cp(CONF_REJ, p.id, b))]);
    } else if |nak| > 0 {
      var b := PackOpts(nak);
      g := Conf(Running(s), t + [Sent(LCP, Cp(CONF_NAK, p.id, b))]);
    } else {
      var s' := s.(authProto := auth, authOK := if auth == 0 then true else s.authOK, lcpPeerOK := true);
      g := Conf(Running(s'), t + [Sent(LCP, Cp(CONF_ACK, p.id, p.data))]);
    }
  }

  method HandleLcpRefusal(s: State, t: seq<Item>, p: Packet) returns (g: Conf)
    ensures g == OnLcpRefusal(s, t, p)
  {
    hide Pack, Parse, RewriteLcp, Cp;
    var opts := ParseOpts(p.data);
    var ours := RewriteLcpOptions(p.code == CONF_REJ, s.lcpOurs, if opts.Some? then opts.value else []);
    var s' := s.(lcpOurs := ours, id := NextID(s.id), lcpID := NextID(s.id));
    var b := PackOpts(s'.lcpOurs);
    g := Conf(Running(s'), t + [Sent(LCP, Cp(CONF_REQ, s'.lcpID, b))]);
  }

  method HandleLcp(c: Config, s: State, t: seq<Item>, p: Packet) returns (g: Conf)
    ensures g == OnLcp(c, s, t, p)
  {
    hide Cp, OnLcpReq, OnLcpRefusal;
    g := Conf(Running(s), t);
    if p.code == CONF_REQ {
      g := HandleLcpReq(c, s, t, p);
    } else if p.code == CONF_ACK {
      if p.id == s.lcpID { g := Conf(Running(s.(lcpOurOK := true)), t); }
    } else if p.code == CONF_NAK || p.code == CONF_REJ {
      if p.id == s.lcpID {
        g := HandleLcpRefusal(s, t, p);
      }
    } else if p.code == ECHO_REQ {
      g := Conf(Running(s), t + [Sent(LCP, Cp(ECHO_REPLY, p.id, c.magic))]);
    } else if p.code == TERM_REQ {
      g := Conf(Failed(Terminated), t + [Sent(LCP, Cp(TERM_ACK, p.id, []))]);
    }
  }

  method HandleIpcpReq(s: State, t: seq<Item>, p: Packet) returns (g: Conf)
    ensures g == OnIpcpReq(s, t, p)
  {
    hide Pack, Parse, NotAddr, Cp;
    var opts := ParseOpts(p.data);
    if opts.None? { return Conf(Running(s), t); }
    var rej := RejectedByIpcp(opts.value);
    if |rej| > 0 {
      var b := PackOpts(rej);
      g := Conf(Running(s), t + [Sent(IPCP, Cp(CONF_REJ, p.id, b))]);
    } else {
      g := Conf(Running(s.(ipcpPeerOK := true)), t + [Sent(IPCP, Cp(CONF_ACK, p.id, p.data))]);
    }
  }

  method HandleIpcpRefusal(s: State, t: seq<Item>, p: Packet) returns (g: Conf)
    ensures g == OnIpcpRefusal(s, t, p)
  {
    hide Pack, Parse, RewriteIpcp, Cp;
    var opts := ParseOpts(p.data);
    var ours := RewriteIpcpOptions(p.code == CONF_REJ, s.ipcpOurs, if opts.Some? then opts.value else []);
    if ours.None? { return Conf(Failed(AddressRejected), t); }
    var s' := s.(ipcpOurs := ours.value, id := NextID(s.id), ipcpID := NextID(s.id));
    var b := PackOpts(s'.ipcpOurs);
    g := Conf(Running(s'), t + [Sent(IPCP, Cp(CONF_REQ, s'.ipcpID, b))]);
  }

  method HandleIpcp(s: State, t: seq<Item>, p: Packet) returns (g: Conf)
    ensures g == OnIpcp(s, t, p)
  {
    hide OnIpcpReq, OnIpcpRefusal;
    g := Conf(Running(s), t);
    if p.code == CONF_REQ {
      g := HandleIpcpReq(s, t, p);
    } else if p.code == CONF_ACK {
      if p.id == s.ipcpID { g := Conf(Running(s.(ipcpOurOK := true)), t); }
    } else if p.code == CONF_NAK || p.code == CONF_REJ {
      if p.id == s.ipcpID {
        g := HandleIpcpRefusal(s, t, p);
      }
    }
  }

  /** The three tests at the head of the loop. */
  method LoopHead(c: Config, s0: State, t0: seq<Item>, calls: Calls) returns (g: Conf)
    ensures g == Head(c, s0, t0, calls)
  {
    hide Pack, ReadLink, Unspecified, Cp;
    var s, t := s0, t0;
    if s.lcpOurOK && s.lcpPeerOK && s.authProto == PAP && !s.papSent {
      s := s.(papSent := true);
      t := t + [PapReq(c, s)];
      if !calls.papOk { return Conf(Failed(SendFailed), t); }
    }
    if s.authOK && !s.ipcpSent {
      s := s.(ipcpSent := true);
      if c.hasHook {
        t := t + [Hook(s.hlak)];
        if !calls.hookOk { return Conf(Failed(HookFailed), t); }
      }
      t := t + [IpcpReq(s)];
      if !calls.ipcpOk { return Conf(Failed(SendFailed), t); }
    }
    if s.ipcpOurOK && s.ipcpPeerOK {
      var l := LinkFrom(s.ipcpOurs);
      if l.local.None? || Unspecified(l.local) { return Conf(Failed(NoAddress), t); }
      return Conf(Up(l), t);
    }
    g := Conf(Running(s), t);
  }

  /** One pass of the for loop: the tests at its head, then one event. */
  method Iterate(c: Config, s0: State, t0: seq<Item>, i: Input) returns (g: Conf)
    ensures g == Round(c, Conf(Running(s0), t0), i)
  {
    hide Head, Decode, OnTick, OnLcp, OnPap, OnChap, OnIpcp, OnOther, TimeoutStage;
    g := LoopHead(c, s0, t0, i.calls);
    if !g.st.Running? { return; }
    var s, t := g.st.s, g.t + [Got(i.ev)];
    match i.ev {
      case Closed => return Conf(Failed(ConnectionClosed), t);
      case Deadline => return Conf(Failed(Timeout(TimeoutStage(s))), t);
      case Tick => return OnTick(c, s, t);
      case Frame(f) =>
        var d := Decode(f);
        if d.None? { return Conf(Running(s), t); }
        var p := d.value;
        if p.proto == LCP {
          g := HandleLcp(c, s, t, p);
        } else if p.proto == PAP {
          g := OnPap(s, t, p);
        } else if p.proto == CHAP {
          g := OnChap(c, s, t, p);
        } else if p.proto == IPCP {
          g := HandleIpcp(s, t, p);
        } else {
          g := OnOther(s, t, p);
        }
    }
  }

  /** pppNegotiate, fed with one input per pass of its loop. */
  method Negotiate(c: Config, bootOk: bool, ins: seq<Input>) returns (g: Conf)
    ensures g == Run(c, bootOk, ins)
  {
    g := Boot(c, bootOk);
    for k := 0 to |ins|
      invariant g == Run(c, bootOk, ins[..k])
    {
      assert ins[..k + 1][..k] == ins[..k];
      if g.st.Running? {
        g := Iterate(c, g.st.s, g.t, ins[k]);
      }
    }
    assert ins[..|ins|] == ins;
  }
}
