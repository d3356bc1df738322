/**
  Refusals are obeyed on both sides: our own requests drop what was rejected and adopt what was
  hinted, and an LCP peer that does the same is acknowledged by its third Configure-Request.
  */
module PppConvergence {
  import opened Bytes
  import opened PppOptions
  import opened Ppp

  /** The client never accepts this option in any form. */
  predicate Rejectable(x: Opt) {
    && x.t != LCP_MRU && x.t != LCP_ACCM && x.t != LCP_MAGIC
    && (x.t == LCP_AUTH ==> |x.v| < 2)
  }

  /** PAP unless the setting is mschapv2, and CHAP with algorithm 81 unless it is pap. */
  predicate Acceptable(c: Config, v: seq<byte>) {
    (c.auth != OnlyMsChap && [0xc0, 0x23] <= v) || (c.auth != OnlyPap && [0xc2, 0x23, 0x81] <= v)
  }

  /** The client answers this authentication option with its own preference. */
  predicate Nakable(c: Config, x: Opt) {
    x.t == LCP_AUTH && |x.v| >= 2 && !Acceptable(c, x.v)
  }

  /** The authentication the client hints at: PAP if it is all it has, else CHAP with algorithm 81. */
  function Hint(c: Config): Opt {
    Opt(3, match c.auth case OnlyPap => [0xc0, 0x23] case _ => [0xc2, 0x23, 0x81])
  }

  lemma AcceptableIsWanted(c: Config, v: seq<byte>)
    requires |v| >= 2
    ensures WantAuth(c, Get16(v), if |v| > 2 then v[2] else 0) <==> Acceptable(c, v)
    ensures Get16(v) == 256 * (v[0] as int) + v[1] as int
  {
    assert [0xc0, 0x23] <= v <==> v[0] == 0xc0 && v[1] == 0x23;
    assert [0xc2, 0x23, 0x81] <= v <==> |v| > 2 && v[0] == 0xc2 && v[1] == 0x23 && v[2] == 0x81;
  }

  /** The options the client never takes, in order. */
  function Rejected(opts: seq<Opt>): seq<Opt> {
    if opts == [] then []
    else (if Rejectable(opts[0]) then [opts[0]] else []) + Rejected(opts[1..])
  }

  /** One hint for each authentication option it does not want. */
  function Hints(c: Config, opts: seq<Opt>): seq<Opt> {
    if opts == [] then []
    else (if Nakable(c, opts[0]) then [Hint(c)] else []) + Hints(c, opts[1..])
  }

  lemma {:induction false} FilterSnoc(c: Config, a: seq<Opt>, x: Opt)
    ensures Rejected(a + [x]) == Rejected(a) + if Rejectable(x) then [x] else []
    ensures Hints(c, a + [x]) == Hints(c, a) + if Nakable(c, x) then [Hint(c)] else []
  {
    hide Rejectable, Nakable, Hint;
    var o := a + [x];
    var r, h := if Rejectable(x) then [x] else [], if Nakable(c, x) then [Hint(c)] else [];
    if a == [] {
      assert o == [x] && o[1..] == [];
      NothingToAnswer(c);
      assert Rejected(o) == r + [] && Hints(c, o) == h + [];
    } else {
      assert o[1..] == a[1..] + [x] && o[0] == a[0];
      FilterSnoc(c, a[1..], x);
      Regroup(if Rejectable(a[0]) then [a[0]] else [], Rejected(a[1..]), r);
      Regroup(if Nakable(c, a[0]) then [Hint(c)] else [], Hints(c, a[1..]), h);
    }
  }

  /** The scan is these two lists, and the protocol of the last authentication option if it is clean. */
  lemma {:induction false} ScanIs(c: Config, opts: seq<Opt>)
    ensures Scan(c, opts).rej == Rejected(opts) && Scan(c, opts).nak == Hints(c, opts)
  {
    hide WantAuth, Rejected, Hints, Get16, Acceptable;
    if opts == [] {
      NothingToAnswer(c);
    } else {
      var init, x := opts[..|opts| - 1], opts[|opts| - 1];
      assert opts == init + [x];
      ScanIs(c, init);
      FilterSnoc(c, init, x);
      if x.t == LCP_AUTH && |x.v| >= 2 { AcceptableIsWanted(c, x.v); }
      assert Opt(LCP_AUTH, Preferred(c)) == Hint(c);
    }
  }

  lemma NothingToAnswer(c: Config)
    ensures Rejected([]) == [] && Hints(c, []) == []
  {
  }

  /** A request is rejected, hinted or acked, in that order, with exactly those options. */
  lemma AnswerIs(c: Config, id: byte, data: seq<byte>)
    requires Parse(data).Some?
    ensures var o := Parse(data).value;
            AnswerTo(c, id, data) ==
            if Rejected(o) != [] then Cp(4, id, Pack(Rejected(o)))
            else if Hints(c, o) != [] then Cp(3, id, Pack(Hints(c, o)))
            else Cp(2, id, data)
  {
    ScanIs(c, Parse(data).value);
  }

  /** Acking a request takes up the protocol of its last authentication option. */
  lemma AckTakesProtocol(c: Config, s: State, t: seq<Item>, p: Packet, a: seq<Opt>, x: Opt, b: seq<Opt>)
    requires Parse(p.data) == Some(a + [x] + b) && x.t == 3 && !Names(b, 3)
    requires Rejected(a + [x] + b) == [] && Hints(c, a + [x] + b) == []
    ensures OnLcpReq(c, s, t, p).st.Running? && |x.v| >= 2
    ensures OnLcpReq(c, s, t, p).st.s.authProto == 256 * (x.v[0] as int) + x.v[1] as int
  {
    ScanIs(c, a + [x] + b);
    LastProtocol(c, a, x, b);
  }

  lemma {:induction false} LastProtocol(c: Config, a: seq<Opt>, x: Opt, b: seq<Opt>)
    requires x.t == LCP_AUTH && !Names(b, LCP_AUTH)
    requires Scan(c, a + [x] + b).rej == [] && Scan(c, a + [x] + b).nak == []
    ensures |x.v| >= 2 && Scan(c, a + [x] + b).auth == 256 * (x.v[0] as int) + x.v[1] as int
    decreases |b|
  {
    hide WantAuth;
    var o := a + [x] + b;
    if b == [] {
      assert o[..|o| - 1] == a && o[|o| - 1] == x;
    } else {
      var b' := b[..|b| - 1];
      NamesSnoc(b, LCP_AUTH);
      assert o[..|o| - 1] == a + [x] + b' && o[|o| - 1] == b[|b| - 1];
      LastProtocol(c, a, x, b');
    }
  }

  /** The scan rejects exactly the rejectable options and hints exactly when one is nakable. */
  lemma {:induction false} ScanMeans(c: Config, opts: seq<Opt>)
    ensures forall x :: x in Scan(c, opts).rej <==> x in opts && Rejectable(x)
    ensures Scan(c, opts).nak == [] <==> forall x :: x in opts ==> !Nakable(c, x)
    ensures forall x :: x in Scan(c, opts).nak ==> x == Hint(c)
  {
    hide WantAuth, Acceptable, Get16;
    if opts != [] {
      var init, x := opts[..|opts| - 1], opts[|opts| - 1];
      assert opts == init + [x];
      assert forall y :: y in opts <==> y in init || y == x;
      ScanMeans(c, init);
      assert Scan(c, opts) == Judge(c, Scan(c, init), x);
      if x.t == LCP_AUTH && |x.v| >= 2 { AcceptableIsWanted(c, x.v); }
      assert Opt(LCP_AUTH, Preferred(c)) == Hint(c);
      assert |Scan(c, opts).nak| == |Scan(c, init).nak| + if Nakable(c, x) then 1 else 0;
      assert x in opts;
    }
  }

  /**
    In every state the loop sends that packet, and its state changes exactly when the packet is
    an Ack: the peer's side is then settled, and authentication too if it asked for none.
    */
  lemma AnswerIsSent(c: Config, s: State, t: seq<Item>, p: Packet)
    requires Parse(p.data).Some?
    ensures OnLcpReq(c, s, t, p).t == t + [Sent(LCP, AnswerTo(c, p.id, p.data))]
    ensures OnLcpReq(c, s, t, p).st.Running?
    ensures var s' := OnLcpReq(c, s, t, p).st.s;
            if AnswerTo(c, p.id, p.data)[0] == CONF_ACK then
              s'.lcpPeerOK && (s'.authOK <==> s.authOK || !Names(Parse(p.data).value, LCP_AUTH))
            else s' == s
  {
    var opts := Parse(p.data).value;
    if |Scan(c, opts).rej| == 0 && |Scan(c, opts).nak| == 0 { CleanScanAuth(c, opts); }
  }

  /** A clean scan takes up no protocol exactly when no authentication option is there. */
  lemma {:induction false} CleanScanAuth(c: Config, opts: seq<Opt>)
    requires Scan(c, opts).rej == [] && Scan(c, opts).nak == []
    ensures Scan(c, opts).auth == 0 <==> !Names(opts, LCP_AUTH)
  {
    if opts == [] {
      NamesNothing();
    } else {
      CleanScanAuth(c, opts[..|opts| - 1]);
      NamesSnoc(opts, LCP_AUTH);
    }
  }

  /**
    A cooperative next request: after a Reject only earlier options that were not
    listed; after a Nak the earlier options, with every listed type taken from the hint.
    */
  ghost predicate Follows(data: seq<byte>, answer: seq<byte>, next: seq<byte>)
    requires Parse(data).Some? && |answer| >= 4
  {
    && Parse(next).Some? && Parse(answer[4..]).Some?
    && var o, said, o' := Parse(data).value, Parse(answer[4..]).value, Parse(next).value;
       if answer[0] == CONF_REJ then forall x :: x in o' ==> x in o && x !in said
       else if answer[0] == CONF_NAK then
         forall x :: x in o' ==> x in said || (x in o && forall y :: y in said ==> y.t != x.t)
       else next == data
  }

  lemma Inhabited(r: seq<Opt>)
    ensures r == [] || r[0] in r
  {
  }

  lemma FitsMembers(o: seq<Opt>, r: seq<Opt>)
    requires Fits(o) && forall x :: x in r ==> x in o
    ensures Fits(r)
  {
    forall i | 0 <= i < |r|
      ensures |r[i].v| <= 253
    {
      assert r[i] in o;
    }
  }

  /** What the peer reads back out of the answer is what the scan decided. */
  lemma AnswerReads(c: Config, id: byte, data: seq<byte>)
    requires Parse(data).Some?
    ensures var v, a := Scan(c, Parse(data).value), AnswerTo(c, id, data);
            Parse(a[4..]) == Some(if |v.rej| > 0 then v.rej else if |v.nak| > 0 then v.nak else Parse(data).value)
  {
    var o := Parse(data).value;
    var v := Scan(c, o);
    PackParse(data);
    ScanMeans(c, o);
    FitsMembers(o, v.rej);
    FitsMembers([Hint(c)], v.nak);
    ParsePack(v.rej);
    ParsePack(v.nak);
  }

  /** After a Reject nothing rejectable is left. */
  lemma RejectSettles(c: Config, id: byte, data: seq<byte>, next: seq<byte>)
    requires Parse(data).Some? && Follows(data, AnswerTo(c, id, data), next)
    requires AnswerTo(c, id, data)[0] == CONF_REJ
    ensures Scan(c, Parse(next).value).rej == []
  {
    AnswerReads(c, id, data);
    ScanMeans(c, Parse(data).value);
    ScanMeans(c, Parse(next).value);
    var r := Scan(c, Parse(next).value).rej;
    Inhabited(r);
  }

  lemma HintIsTaken(c: Config)
    ensures !Rejectable(Hint(c)) && !Nakable(c, Hint(c))
  {
  }

  /** After a Nak everything is acceptable. */
  lemma NakSettles(c: Config, id: byte, id': byte, data: seq<byte>, next: seq<byte>)
    requires Parse(data).Some? && Follows(data, AnswerTo(c, id, data), next)
    requires AnswerTo(c, id, data)[0] == CONF_NAK
    ensures AnswerTo(c, id', next) == Cp(CONF_ACK, id', next)
  {
    var o, o' := Parse(data).value, Parse(next).value;
    AnswerReads(c, id, data);
    ScanMeans(c, o);
    ScanMeans(c, o');
    HintIsTaken(c);
    var said := Scan(c, o).nak;
    assert said[0] in said;
    forall x | x in o'
      ensures !Rejectable(x) && !Nakable(c, x)
    {
      if x !in said {
        assert x.t != said[0].t;
        assert x in o && x !in Scan(c, o).rej;
      }
    }
    var v := Scan(c, o');
    Inhabited(v.rej);
    assert AnswerTo(c, id', next) == Cp(CONF_ACK, id', next);
  }

  /** Whatever it starts from, such a peer is acknowledged, byte for byte, by its third request. */
  lemma AcknowledgedByThird(c: Config, id1: byte, id2: byte, id3: byte,
                            d1: seq<byte>, d2: seq<byte>, d3: seq<byte>)
    requires Parse(d1).Some? && Follows(d1, AnswerTo(c, id1, d1), d2)
    requires Follows(d2, AnswerTo(c, id2, d2), d3)
    ensures || AnswerTo(c, id1, d1) == Cp(CONF_ACK, id1, d1)
            || AnswerTo(c, id2, d2) == Cp(CONF_ACK, id2, d2)
            || AnswerTo(c, id3, d3) == Cp(CONF_ACK, id3, d3)
  {
    var a1, a2 := AnswerTo(c, id1, d1), AnswerTo(c, id2, d2);
    if a1[0] == CONF_NAK {
      NakSettles(c, id1, id2, d1, d2);
    } else if a1[0] == CONF_REJ {
      RejectSettles(c, id1, d1, d2);
      if a2[0] == CONF_NAK { NakSettles(c, id2, id3, d2, d3); }
    }
  }

  // ---------------------------------------------------------------- our own requests

  ghost predicate DistinctTypes(o: seq<Opt>) {
    forall i, j :: 0 <= i < j < |o| ==> o[i].t != o[j].t
  }

  ghost predicate Names(opts: seq<Opt>, t: byte) {
    exists i :: 0 <= i < |opts| && opts[i].t == t
  }

  lemma NamesSnoc(opts: seq<Opt>, t: byte)
    requires opts != []
    ensures Names(opts, t) <==> Names(opts[..|opts| - 1], t) || opts[|opts| - 1].t == t
  {
    var init, x := opts[..|opts| - 1], opts[|opts| - 1];
    assert opts == init + [x];
    if Names(init, t) {
      var i :| 0 <= i < |init| && init[i].t == t;
      assert opts[i].t == t;
    }
    if Names(opts, t) {
      var i :| 0 <= i < |opts| && opts[i].t == t;
      assert i < |init| ==> init[i].t == t;
    }
  }

  /** The last value given for a type that passes the length filter, else the value held. */
  function LastValue(opts: seq<Opt>, t: byte, held: seq<byte>, four: bool): seq<byte> {
    if opts == [] then held
    else
      var x := opts[|opts| - 1];
      if x.t == t && (four ==> |x.v| == 4) then x.v else LastValue(opts[..|opts| - 1], t, held, four)
  }

  lemma OmitDistinct(a: seq<Opt>, x: Opt, b: seq<Opt>)
    requires DistinctTypes(a + [x] + b)
    ensures DistinctTypes(a + b)
    ensures forall y :: y in a || y in b ==> y.t != x.t
  {
    var o, r := a + [x] + b, a + b;
    assert o[|a|] == x;
    assert forall k {:trigger r[k]} :: 0 <= k < |r| ==> r[k] == o[if k < |a| then k else k + 1];
    assert forall k {:trigger a[k]} :: 0 <= k < |a| ==> o[k] == a[k];
    assert forall k {:trigger b[k]} :: 0 <= k < |b| ==> o[|a| + 1 + k] == b[k];
  }

  lemma RejectOne(o: seq<Opt>, t: byte)
    requires DistinctTypes(o)
    ensures var i := Find(o, t);
            var r := if i == |o| then o else o[..i] + o[i + 1..];
            DistinctTypes(r) && forall x :: x in r <==> x in o && x.t != t
  {
    hide DistinctTypes;
    var i := Find(o, t);
    if i < |o| {
      var a, b := o[..i], o[i + 1..];
      assert o == a + [o[i]] + b;
      OmitDistinct(a, o[i], b);
      assert forall x :: x in o <==> x in a || x == o[i] || x in b;
      assert forall x :: x in a + b <==> x in a || x in b;
    } else {
      assert forall x :: x in o ==> x.t != t;
    }
  }

  /** A Reject removes exactly the options it names from our LCP request. */
  lemma {:induction false} LcpRejectObeyed(ours: seq<Opt>, opts: seq<Opt>)
    requires DistinctTypes(ours)
    ensures DistinctTypes(RewriteLcp(true, ours, opts))
    ensures forall x :: x in RewriteLcp(true, ours, opts) <==> x in ours && !Names(opts, x.t)
  {
    hide DistinctTypes, Names;
    if opts == [] {
      assert forall t :: !Names([], t) by { NamesNothing(); }
    } else {
      var init, last := opts[..|opts| - 1], opts[|opts| - 1];
      LcpRejectObeyed(ours, init);
      RejectOne(RewriteLcp(true, ours, init), last.t);
      forall t: byte
        ensures Names(opts, t) <==> Names(init, t) || last.t == t
      {
        NamesSnoc(opts, t);
      }
    }
  }

  /** The options whose types are not named, in order. */
  ghost function Omit(o: seq<Opt>, opts: seq<Opt>): seq<Opt> {
    if o == [] then [] else (if Names(opts, o[0].t) then [] else [o[0]]) + Omit(o[1..], opts)
  }

  /** The list without its first option of this type. */
  function Cut(o: seq<Opt>, t: byte): seq<Opt> {
    var i := Find(o, t);
    if i == |o| then o else o[..i] + o[i + 1..]
  }

  lemma CutCons(x: Opt, o: seq<Opt>, t: byte)
    ensures Cut([x] + o, t) == if x.t == t then o else [x] + Cut(o, t)
  {
    hide Find;
    var r := [x] + o;
    FindCons(x, o, t);
    if x.t == t {
      assert r[..0] + r[1..] == o;
    } else {
      var i := Find(o, t);
      if i < |o| {
        assert r[..1 + i] == [x] + o[..i] && r[2 + i..] == o[i + 1..];
        Regroup([x], o[..i], o[i + 1..]);
      }
    }
  }

  lemma FindCons(x: Opt, o: seq<Opt>, t: byte)
    ensures Find([x] + o, t) == if x.t == t then 0 else 1 + Find(o, t)
  {
    assert ([x] + o)[1..] == o;
  }

  lemma CutEmpty(t: byte)
    ensures Cut([], t) == []
  {
  }

  lemma {:induction false} OmitOne(o: seq<Opt>, opts: seq<Opt>)
    requires DistinctTypes(o) && opts != []
    ensures Omit(o, opts) == Cut(Omit(o, opts[..|opts| - 1]), opts[|opts| - 1].t)
  {
    hide Cut, Names;
    var init, t := opts[..|opts| - 1], opts[|opts| - 1].t;
    if o == [] {
      CutEmpty(t);
    } else {
      OmitOne(o[1..], opts);
      NamesSnoc(opts, o[0].t);
      CutCons(o[0], Omit(o[1..], init), t);
      assert [] + Omit(o[1..], init) == Omit(o[1..], init) && [] + Omit(o[1..], opts) == Omit(o[1..], opts);
      if o[0].t == t {
        OmitSame(o[1..], opts);
      }
    }
  }

  /** Naming a type once more omits nothing more when no option has it. */
  lemma {:induction false} OmitSame(o: seq<Opt>, opts: seq<Opt>)
    requires opts != [] && forall i :: 0 <= i < |o| ==> o[i].t != opts[|opts| - 1].t
    ensures Omit(o, opts) == Omit(o, opts[..|opts| - 1])
  {
    hide Names;
    if o != [] {
      OmitSame(o[1..], opts);
      NamesSnoc(opts, o[0].t);
    }
  }

  lemma {:induction false} OmitNothing(o: seq<Opt>)
    ensures Omit(o, []) == o
  {
    if o != [] {
      OmitNothing(o[1..]);
      assert [o[0]] + o[1..] == o;
    }
  }

  /** A Reject leaves the options it does not name, in their order. */
  lemma {:induction false} LcpRejectInOrder(ours: seq<Opt>, opts: seq<Opt>)
    requires DistinctTypes(ours)
    ensures RewriteLcp(true, ours, opts) == Omit(ours, opts)
  {
    hide DistinctTypes, Omit;
    if opts == [] {
      OmitNothing(ours);
    } else {
      LcpRejectInOrder(ours, opts[..|opts| - 1]);
      OmitOne(ours, opts);
    }
  }

  /** So does an IPCP Reject. */
  lemma {:induction false} IpcpRejectInOrder(ours: seq<Opt>, opts: seq<Opt>)
    requires DistinctTypes(ours) && RewriteIpcp(true, ours, opts).Some?
    ensures RewriteIpcp(true, ours, opts).value == Omit(ours, opts)
  {
    hide DistinctTypes, Omit;
    if opts == [] {
      OmitNothing(ours);
    } else {
      IpcpRejectInOrder(ours, opts[..|opts| - 1]);
      OmitOne(ours, opts);
    }
  }

  lemma NamesNothing()
    ensures forall t :: !Names([], t)
  {
  }

  /** An IPCP Reject does the same, unless it names the address we must have. */
  lemma {:induction false} IpcpRejectObeyed(ours: seq<Opt>, opts: seq<Opt>)
    requires DistinctTypes(ours) && Names(ours, IPCP_ADDR)
    ensures RewriteIpcp(true, ours, opts).None? <==> Names(opts, IPCP_ADDR)
    ensures RewriteIpcp(true, ours, opts).Some? ==>
              && DistinctTypes(RewriteIpcp(true, ours, opts).value)
              && forall x :: x in RewriteIpcp(true, ours, opts).value <==> x in ours && !Names(opts, x.t)
  {
    hide DistinctTypes;
    if opts == [] {
      NamesNothing();
    } else {
      var init, last := opts[..|opts| - 1], opts[|opts| - 1];
      IpcpRejectObeyed(ours, init);
      forall t: byte
        ensures Names(opts, t) <==> Names(init, t) || last.t == t
      {
        NamesSnoc(opts, t);
      }
      if RewriteIpcp(true, ours, init).Some? {
        var o := RewriteIpcp(true, ours, init).value;
        RejectOne(o, last.t);
        AddressStays(ours, o, init);
      }
    }
  }

  lemma AddressStays(ours: seq<Opt>, o: seq<Opt>, opts: seq<Opt>)
    requires Names(ours, IPCP_ADDR) && !Names(opts, IPCP_ADDR)
    requires forall x :: x in o <==> x in ours && !Names(opts, x.t)
    ensures Find(o, IPCP_ADDR) < |o|
  {
    var i :| 0 <= i < |ours| && ours[i].t == IPCP_ADDR;
    assert ours[i] in o;
    var k :| 0 <= k < |o| && o[k] == ours[i];
  }

  /** A Nak keeps our options and gives each the last value offered for its type. */
  lemma {:induction false} LcpNakObeyed(ours: seq<Opt>, opts: seq<Opt>)
    requires DistinctTypes(ours)
    ensures var r := RewriteLcp(false, ours, opts);
            |r| == |ours| && forall i :: 0 <= i < |ours| ==>
              r[i] == Opt(ours[i].t, LastValue(opts, ours[i].t, ours[i].v, false))
  {
    if opts != [] {
      LcpNakObeyed(ours, opts[..|opts| - 1]);
    }
  }

  /** An IPCP Nak does the same, taking only four-byte values. */
  lemma {:induction false} IpcpNakObeyed(ours: seq<Opt>, opts: seq<Opt>)
    requires DistinctTypes(ours)
    ensures RewriteIpcp(false, ours, opts).Some?
    ensures var r := RewriteIpcp(false, ours, opts).value;
            |r| == |ours| && forall i :: 0 <= i < |ours| ==>
              r[i] == Opt(ours[i].t, LastValue(opts, ours[i].t, ours[i].v, true))
  {
    if opts != [] {
      IpcpNakObeyed(ours, opts[..|opts| - 1]);
    }
  }
}
