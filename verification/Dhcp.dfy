/** DHCP messages of the SoftEther client (options as in section 2 of RFC 2132). */
module Dhcp {
  import opened Bytes
  import opened Inet

  datatype Opt = Opt(t: byte, v: seq<byte>)

  const COOKIE: seq<byte> := [99, 130, 83, 99]

  // ---------------------------------------------------------------- the option area

  /** The options from index i on: pads skipped, ended by 255, by the end, or by a truncated option. */
  function Options(b: seq<byte>, i: nat): seq<Opt>
    decreases |b| - i
  {
    if i >= |b| || b[i] == 255 then []
    else if b[i] == 0 then Options(b, i + 1)
    else if i + 1 >= |b| || i + 2 + b[i + 1] > |b| then []
    else [Opt(b[i], b[i + 2..i + 2 + b[i + 1]])] + Options(b, i + 2 + b[i + 1])
  }

  datatype Token = Pad | Item(o: Opt)

  predicate WellFormed(ts: seq<Token>) {
    forall i :: 0 <= i < |ts| && ts[i].Item? ==> 0 < ts[i].o.t < 255 && |ts[i].o.v| <= 255
  }

  function Encode(ts: seq<Token>): seq<byte>
    requires WellFormed(ts)
  {
    if ts == [] then []
    else (if ts[0].Pad? then [0] else [ts[0].o.t, |ts[0].o.v|] + ts[0].o.v) + Encode(ts[1..])
  }

  function Items(ts: seq<Token>): seq<Opt> {
    if ts == [] then [] else (if ts[0].Pad? then [] else [ts[0].o]) + Items(ts[1..])
  }

  lemma PadSkipped(b: seq<byte>, i: nat)
    requires i < |b| && b[i] == 0
    ensures Options(b, i) == Options(b, i + 1)
  {
  }

  lemma OptionTaken(b: seq<byte>, i: nat, o: Opt)
    requires i + 2 + |o.v| <= |b| && 0 < o.t < 255
    requires b[i] == o.t && b[i + 1] == |o.v| && b[i + 2..i + 2 + |o.v|] == o.v
    ensures Options(b, i) == [o] + Options(b, i + 2 + |o.v|)
  {
  }

  lemma EndMark(b: seq<byte>, i: nat)
    requires i < |b| && b[i] == 255
    ensures Options(b, i) == []
  {
  }

  /** Options written with any padding between them are read back in order, whatever follows the end mark. */
  lemma {:induction false} OptionsEncode(pre: seq<byte>, ts: seq<Token>, junk: seq<byte>)
    requires WellFormed(ts)
    ensures Options(pre + Encode(ts) + [255] + junk, |pre|) == Items(ts)
    decreases |ts|
  {
    hide Options;
    var b := pre + Encode(ts) + [255] + junk;
    if ts == [] {
      EndMark(b, |pre|);
    } else {
      var first := if ts[0].Pad? then [0] else [ts[0].o.t, |ts[0].o.v|] + ts[0].o.v;
      var later := Encode(ts[1..]) + [255] + junk;
      assert b == pre + first + later;
      assert b == (pre + first) + Encode(ts[1..]) + [255] + junk;
      OptionsEncode(pre + first, ts[1..], junk);
      FrontTaken(pre, ts[0], later);
    }
  }

  /** The token at the front of the option area. */
  lemma FrontTaken(pre: seq<byte>, t: Token, later: seq<byte>)
    requires t.Item? ==> 0 < t.o.t < 255 && |t.o.v| <= 255
    ensures var first := if t.Pad? then [0] else [t.o.t, |t.o.v|] + t.o.v;
            Options(pre + first + later, |pre|)
            == (if t.Pad? then [] else [t.o]) + Options(pre + first + later, |pre + first|)
  {
    hide Options;
    if t.Pad? {
      PadSkipped(pre + [0] + later, |pre|);
    } else {
      var b := pre + ([t.o.t, |t.o.v|] + t.o.v) + later;
      assert b[|pre| + 2..|pre| + 2 + |t.o.v|] == t.o.v;
      OptionTaken(b, |pre|, t.o);
    }
  }

  // ---------------------------------------------------------------- parseDHCP

  datatype Reply = Reply(msgType: byte, prefix: int, router: Option<Addr>, dns: seq<Addr>,
                         lease: int, server: Option<Addr>)

  datatype Parsed = Rejected | Parsed(yiaddr: Addr, r: Reply)

  const NO_REPLY := Reply(0, 24, None, [], 0, None)

  /** The length of a contiguous mask, 0 for any other, searching from n. */
  function MaskLength(m: int, n: nat): (r: nat)
    requires n <= 32
    ensures r == 0 || (r <= 32 && m == TWO32 - Pow2(32 - r))
    decreases 32 - n
  {
    if m == TWO32 - Pow2(32 - n) then n else if n == 32 then 0 else MaskLength(m, n + 1)
  }

  /** The addresses packed in an option value; a ragged tail is dropped. */
  function Addresses(v: seq<byte>): seq<Addr> {
    if |v| < 4 then []
    else
      var a: Addr := v[..4];
      [a] + Addresses(v[4..])
  }

  function Apply(r: Reply, o: Opt): Reply {
    if o.t == 53 then (if |o.v| == 1 then r.(msgType := o.v[0]) else r)
    else if o.t == 1 then (if |o.v| == 4 then r.(prefix := MaskLength(Get32(o.v), 0)) else r)
    else if o.t == 3 then (if |o.v| >= 4 then r.(router := Some(o.v[..4])) else r)
    else if o.t == 6 then r.(dns := r.dns + Addresses(o.v))
    else if o.t == 51 then (if |o.v| == 4 then r.(lease := Get32(o.v)) else r)
    else if o.t == 54 then (if |o.v| == 4 then r.(server := Some(o.v)) else r)
    else r
  }

  function Fold(r: Reply, os: seq<Opt>): Reply
    decreases |os|
  {
    if os == [] then r else Fold(Apply(r, os[0]), os[1..])
  }

  predicate HeaderOk(b: seq<byte>, xid: int) {
    |b| >= 240 && b[0] == 2 && Get32(b[4..]) == xid && b[236..240] == COOKIE
  }

  function Parse(b: seq<byte>, xid: int): Parsed {
    if !HeaderOk(b, xid) then Rejected else Parsed(b[16..20], Fold(NO_REPLY, Options(b, 240)))
  }

  method AppendAddresses(dns0: seq<Addr>, v: seq<byte>) returns (dns: seq<Addr>)
    ensures dns == dns0 + Addresses(v)
  {
    dns := dns0;
    var j := 0;
    while j + 4 <= |v|
      invariant 0 <= j <= |v|
      invariant dns + Addresses(v[j..]) == dns0 + Addresses(v)
    {
      assert v[j..][..4] == v[j..j + 4] && v[j..][4..] == v[j + 4..];
      var a: Addr := v[j..j + 4];
      dns := dns + [a];
      j := j + 4;
    }
  }

  /** One round of the switch over the option types. */
  method ApplyOption(r: Reply, t: byte, v: seq<byte>) returns (r': Reply)
    ensures r' == Apply(r, Opt(t, v))
  {
    r' := r;
    match t {
      case 53 => if |v| == 1 { r' := r.(msgType := v[0]); }
      case 1 => if |v| == 4 { r' := r.(prefix := MaskLength(Get32(v), 0)); }
      case 3 => if |v| >= 4 { r' := r.(router := Some(v[..4])); }
      case 6 =>
        var dns := AppendAddresses(r.dns, v);
        r' := r.(dns := dns);
      case 51 => if |v| == 4 { r' := r.(lease := Get32(v)); }
      case 54 => if |v| == 4 { r' := r.(server := Some(v)); }
      case _ =>
    }
  }

  /** parseDHCP: the index loop stays in bounds and ends on every input. */
  method ParseDhcp(b: seq<byte>, xid: int) returns (p: Parsed, ok: bool)
    ensures p == Parse(b, xid)
    ensures ok <==> p.Parsed? && p.r.msgType != 0
  {
    if !HeaderOk(b, xid) { return Rejected, false; }
    var r := NO_REPLY;
    var i := 240;
    while i < |b|
      invariant 240 <= i <= |b|
      invariant Fold(r, Options(b, i)) == Fold(NO_REPLY, Options(b, 240))
      decreases |b| - i
    {
      var t := b[i];
      if t == 255 { break; }
      if t == 0 {
        i := i + 1;
        continue;
      }
      if i + 1 >= |b| || i + 2 + b[i + 1] > |b| { break; }
      var v := b[i + 2..i + 2 + b[i + 1]];
      ghost var os := Options(b, i);
      assert os[0] == Opt(t, v) && os[1..] == Options(b, i + 2 + |v|);
      r := ApplyOption(r, t, v);
      i := i + 2 + |v|;
    }
    p := Parsed(b[16..20], r);
    ok := r.msgType != 0;
  }

  /** All option-6 servers, in the order of the message. */
  function AllServers(os: seq<Opt>): seq<Addr> {
    if os == [] then [] else (if os[0].t == 6 then Addresses(os[0].v) else []) + AllServers(os[1..])
  }

  /** The last value of an option type whose length lies in a range. */
  function Latest(os: seq<Opt>, t: byte, lo: nat, hi: nat): (r: Option<seq<byte>>)
    ensures r.Some? ==> lo <= |r.value| <= hi
  {
    if os == [] then None
    else
      var later := Latest(os[1..], t, lo, hi);
      if later.Some? then later
      else if os[0].t == t && lo <= |os[0].v| <= hi then Some(os[0].v)
      else None
  }

  /** The reply collects every server, in the order of the message. */
  lemma {:induction false} FoldServers(r: Reply, os: seq<Opt>)
    ensures Fold(r, os).dns == r.dns + AllServers(os)
    decreases |os|
  {
    hide MaskLength, Get32, Addresses;
    if os != [] {
      FoldServers(Apply(r, os[0]), os[1..]);
    }
  }

  /** The latest usable value of each remaining option, or what was there before. */
  ghost predicate TakesLatest(r: Reply, os: seq<Opt>, r': Reply) {
    && (var l := Latest(os, 53, 1, 1); r'.msgType == if l.Some? then l.value[0] else r.msgType)
    && (var l := Latest(os, 1, 4, 4); r'.prefix == if l.Some? then MaskLength(Get32(l.value), 0) else r.prefix)
    && (var l := Latest(os, 3, 4, 255); r'.router == if l.Some? then Some(l.value[..4]) else r.router)
    && (var l := Latest(os, 51, 4, 4); r'.lease == if l.Some? then Get32(l.value) else r.lease)
    && (var l := Latest(os, 54, 4, 4); r'.server == if l.Some? then Some(l.value) else r.server)
  }

  lemma LatestCons(os: seq<Opt>, t: byte, lo: nat, hi: nat)
    requires os != []
    ensures Latest(os, t, lo, hi) == if Latest(os[1..], t, lo, hi).Some? then Latest(os[1..], t, lo, hi)
                                     else if os[0].t == t && lo <= |os[0].v| <= hi then Some(os[0].v)
                                     else None
  {
  }

  lemma TakesLatestCons(r: Reply, os: seq<Opt>, r': Reply)
    requires os != [] && |os[0].v| <= 255 && TakesLatest(Apply(r, os[0]), os[1..], r')
    ensures TakesLatest(r, os, r')
  {
    hide MaskLength, Get32, Addresses, Latest;
    LatestCons(os, 53, 1, 1);
    LatestCons(os, 1, 4, 4);
    LatestCons(os, 3, 4, 255);
    LatestCons(os, 51, 4, 4);
    LatestCons(os, 54, 4, 4);
  }

  /** For each other field the reply keeps the last usable option. */
  lemma {:induction false} FoldLatest(r: Reply, os: seq<Opt>)
    requires forall i :: 0 <= i < |os| ==> |os[i].v| <= 255
    ensures TakesLatest(r, os, Fold(r, os))
    decreases |os|
  {
    if os != [] {
      hide TakesLatest, Apply;
      FoldLatest(Apply(r, os[0]), os[1..]);
      TakesLatestCons(r, os, Fold(r, os));
    }
  }

  // ---------------------------------------------------------------- dhcpMessage

  const HOSTNAME: seq<byte> := [103, 104, 97, 106, 97, 114]

  function Fixed(xid: int, mac: Mac, ciaddr: Option<Addr>): (b: seq<byte>)
    ensures |b| == 240
  {
    [1, 1, 6, 0] + Put32(xid) + [0, 0] + Put16(0x8000)
    + (if ciaddr.Some? then ciaddr.value else Zeros(4)) + Zeros(12) + mac + Zeros(202) + COOKIE
  }

  function Message(msgType: byte, xid: int, mac: Mac, ciaddr: Option<Addr>, opts: seq<seq<byte>>): seq<byte> {
    Fixed(xid, mac, ciaddr) + [53, 1, msgType] + ([61, 7, 1] + mac) + ([12, 6] + HOSTNAME)
    + [55, 4, 1, 3, 6, 51] + Join(opts) + [255]
  }

  function Written(o: Opt): seq<byte>
    requires |o.v| <= 255
  {
    [o.t, |o.v|] + o.v
  }

  function AsTokens(os: seq<Opt>): (ts: seq<Token>)
    ensures |ts| == |os| && forall i :: 0 <= i < |os| ==> ts[i] == Item(os[i])
    ensures Items(ts) == os
  {
    if os == [] then [] else [Item(os[0])] + AsTokens(os[1..])
  }

  lemma {:induction false} JoinIsEncode(os: seq<Opt>, opts: seq<seq<byte>>)
    requires |opts| == |os| && forall i :: 0 <= i < |os| ==> 0 < os[i].t < 255 && |os[i].v| <= 255
    requires forall i :: 0 <= i < |os| ==> opts[i] == Written(os[i])
    ensures WellFormed(AsTokens(os)) && Join(opts) == Encode(AsTokens(os))
    decreases |os|
  {
    if os != [] {
      JoinIsEncode(os[1..], opts[1..]);
      assert AsTokens(os)[1..] == AsTokens(os[1..]);
      assert opts[0] == Written(os[0]);
    }
  }

  /** A sent message carries its type, client id, host name and parameter list, then the extra options. */
  lemma MessageOptions(msgType: byte, xid: int, mac: Mac, ciaddr: Option<Addr>, os: seq<Opt>, opts: seq<seq<byte>>)
    requires |opts| == |os| && forall i :: 0 <= i < |os| ==> 0 < os[i].t < 255 && |os[i].v| <= 255
    requires forall i :: 0 <= i < |os| ==> opts[i] == Written(os[i])
    ensures Options(Message(msgType, xid, mac, ciaddr, opts), 240)
            == [Opt(53, [msgType]), Opt(61, [1] + mac), Opt(12, HOSTNAME), Opt(55, [1, 3, 6, 51])] + os
  {
    hide Fixed, Options, Encode, Items, Join, WellFormed;
    var lead := [Opt(53, [msgType]), Opt(61, [1] + mac), Opt(12, HOSTNAME), Opt(55, [1, 3, 6, 51])];
    var a, b, c, d := [53, 1, msgType], [61, 7, 1] + mac, [12, 6] + HOSTNAME, [55, 4, 1, 3, 6, 51];
    assert a == Written(lead[0]) && b == Written(lead[1]) && c == Written(lead[2]) && d == Written(lead[3]);
    JoinIsEncode(lead + os, [a, b, c, d] + opts);
    JoinFour(a, b, c, d, opts);
    var pre := Fixed(xid, mac, ciaddr);
    OptionsEncode(pre, AsTokens(lead + os), []);
    Regroup(pre, a, b, c, d, Join(opts));
  }

  lemma Regroup(pre: seq<byte>, a: seq<byte>, b: seq<byte>, c: seq<byte>, d: seq<byte>, rest: seq<byte>)
    ensures pre + a + b + c + d + rest + [255] == pre + (a + b + c + d + rest) + [255] + []
  {
  }

  lemma JoinFour(a: seq<byte>, b: seq<byte>, c: seq<byte>, d: seq<byte>, rest: seq<seq<byte>>)
    ensures Join([a, b, c, d] + rest) == a + b + c + d + Join(rest)
  {
    assert ([a, b, c, d] + rest)[1..] == [b, c, d] + rest;
    assert ([b, c, d] + rest)[1..] == [c, d] + rest;
    assert ([c, d] + rest)[1..] == [d] + rest;
    assert ([d] + rest)[1..] == rest;
    assert Join([d] + rest) == d + Join(rest);
    assert Join([c, d] + rest) == c + (d + Join(rest));
    assert Join([b, c, d] + rest) == b + (c + (d + Join(rest)));
  }

  // ---------------------------------------------------------------- fields, byte by byte

  /** The fixed part of a sent message, as RFC 2131 lays it out. */
  lemma FixedFields(msgType: byte, xid: int, mac: Mac, ciaddr: Option<Addr>, opts: seq<seq<byte>>)
    ensures var m := Message(msgType, xid, mac, ciaddr, opts);
            && |m| > 240 && m[..4] == [1, 1, 6, 0] && m[4..8] == Put32(xid) && m[8..12] == [0, 0, 0x80, 0]
            && m[12..16] == (if ciaddr.Some? then ciaddr.value else [0, 0, 0, 0]) && m[16..28] == Zeros(12)
            && m[28..34] == mac && m[34..236] == Zeros(202) && m[236..240] == [99, 130, 83, 99]
  {
    hide Put32, Join;
    var m, f := Message(msgType, xid, mac, ciaddr, opts), Fixed(xid, mac, ciaddr);
    assert m[..240] == f;
    assert m[..4] == m[..240][..4] && m[4..8] == m[..240][4..8] && m[8..12] == m[..240][8..12];
    assert m[12..16] == m[..240][12..16] && m[16..28] == m[..240][16..28] && m[28..34] == m[..240][28..34];
    assert m[34..236] == m[..240][34..236] && m[236..240] == m[..240][236..240];
  }

  /** What a reply must start with, and where its address is. */
  lemma ReplyExactly(b: seq<byte>, xid: int)
    requires 0 <= xid < TWO32
    ensures Parse(b, xid).Parsed? <==>
            |b| >= 240 && b[0] == 2 && b[4..8] == Put32(xid) && b[236..240] == [99, 130, 83, 99]
    ensures Parse(b, xid).Parsed? ==>
              var Parsed(yiaddr, r) := Parse(b, xid);
              && yiaddr == b[16..20] && r.dns == AllServers(Options(b, 240))
              && TakesLatest(Reply(0, 24, None, [], 0, None), Options(b, 240), r)
  {
    hide Options, Fold, AllServers, TakesLatest, Put32, Get32;
    if |b| >= 8 {
      var w := b[4..8];
      assert b[4..] == w + b[8..];
      assert Get32(b[4..]) == Get32(w) && Put32(Get32(w)) == w by {
        FrontOnly(w, b[8..]);
        PutGet32(w);
        assert w[..4] == w;
      }
      Get32Put32(xid, []);
      assert Put32(xid) + [] == Put32(xid);
    }
    if HeaderOk(b, xid) {
      ShortOptions(b, 240);
      FoldServers(NO_REPLY, Options(b, 240));
      FoldLatest(NO_REPLY, Options(b, 240));
    }
  }

  lemma {:induction false} ShortOptions(b: seq<byte>, i: nat)
    ensures forall k :: 0 <= k < |Options(b, i)| ==> |Options(b, i)[k].v| <= 255
    decreases |b| - i
  {
    if i < |b| && b[i] != 255 {
      if b[i] == 0 {
        ShortOptions(b, i + 1);
      } else if i + 1 < |b| && i + 2 + b[i + 1] <= |b| {
        ShortOptions(b, i + 2 + b[i + 1]);
      }
    }
  }

  /** An option value is cut into its four-byte addresses, in order. */
  lemma {:induction false} AddressesAre(v: seq<byte>)
    ensures |Addresses(v)| == |v| / 4
    ensures forall i :: 0 <= i < |v| / 4 ==> Addresses(v)[i] == v[4 * i..4 * i + 4]
  {
    if |v| >= 4 {
      AddressesAre(v[4..]);
      forall i | 0 <= i < |v| / 4
        ensures Addresses(v)[i] == v[4 * i..4 * i + 4]
      {
        if i > 0 { assert v[4..][4 * (i - 1)..4 * (i - 1) + 4] == v[4 * i..4 * i + 4]; }
      }
    }
  }

  /** A mask of n ones, from the front. */
  ghost predicate MaskOf(v: seq<byte>, n: nat)
    requires |v| == 4
  {
    forall j: nat :: j < 32 ==> (Bit(v[j / 8], 7 - j % 8) <==> j < n)
  }

  /** Bit j of the number whose first n of 32 bits are ones. */
  lemma MaskNumber(n: nat, j: nat)
    requires n <= 32 && j < 32
    ensures 0 <= TWO32 - Pow2(32 - n) < TWO32
    ensures Bit(TWO32 - Pow2(32 - n), j) <==> 32 - n <= j
  {
    hide Bit, Pow2;
    Powers();
    PowersMultiply(n, 32 - n);
    var p, q := Pow2(32 - n), Pow2(n);
    assert q * p == TWO32 && p <= q * p;
    assert p * (q - 1) + 0 == TWO32 - p;
    BitLow(q - 1, 0, 32 - n, j);
    if j >= 32 - n { AllOnes(n, j - (32 - n)); } else { NoBits(j); }
  }

  lemma Doubled(x: int, y: int)
    ensures 2 * (x * y) == (2 * x) * y
  {
  }

  lemma {:induction false} PowersMultiply(a: nat, b: nat)
    ensures Pow2(a + b) == Pow2(a) * Pow2(b)
  {
    if a > 0 {
      PowersMultiply(a - 1, b);
      Doubled(Pow2(a - 1), Pow2(b));
      assert Pow2(a + b) == 2 * Pow2(a - 1 + b);
    }
  }

  lemma {:induction false} AllOnes(n: nat, j: nat)
    requires j < n
    ensures Bit(Pow2(n) - 1, j)
  {
    assert (Pow2(n) - 1) / 2 == Pow2(n - 1) - 1 && (Pow2(n) - 1) % 2 == 1;
    if j > 0 { AllOnes(n - 1, j - 1); }
  }

  lemma {:induction false} NoBits(j: nat)
    ensures !Bit(0, j)
  {
    if j > 0 { NoBits(j - 1); }
  }

  /** A mask option means the number of its leading ones, and nothing when a one follows a zero. */
  lemma MaskLengthExactly(v: seq<byte>, n: nat)
    requires |v| == 4 && 0 < n <= 32
    ensures MaskLength(Get32(v), 0) == n <==> MaskOf(v, n)
  {
    hide Get32, Bit, Pow2;
    var g, m := Get32(v), TWO32 - Pow2(32 - n);
    MaskNumber(n, 0);
    Powers();
    forall j: nat | j < 32
      ensures Bit(g, j) == Bit(v[(31 - j) / 8], 7 - (31 - j) % 8) && (Bit(m, j) <==> 31 - j < n)
    {
      Bit32(v, 31 - j);
      MaskNumber(n, j);
    }
    if MaskOf(v, n) { BitsDecide(g, m, 32); }
    if g == m {
      forall j: nat | j < 32
        ensures Bit(v[j / 8], 7 - j % 8) <==> j < n
      {
        assert Bit(g, 31 - j) == Bit(m, 31 - j);
      }
    }
    MaskLengthFinds(g, 0, n);
  }

  lemma {:induction false} PowersGrow(a: nat, b: nat)
    requires a < b
    ensures Pow2(a) < Pow2(b)
  {
    if a + 1 < b { PowersGrow(a, b - 1); }
  }

  lemma {:induction false} MaskLengthFinds(m: int, from: nat, n: nat)
    requires from <= n <= 32 && 0 < n
    ensures MaskLength(m, from) == n <==> m == TWO32 - Pow2(32 - n)
    decreases 32 - from
  {
    if m == TWO32 - Pow2(32 - from) {
      if from < n { PowersGrow(32 - n, 32 - from); }
    } else if from < n {
      MaskLengthFinds(m, from + 1, n);
    } else {
      MaskLengthAfter(m, from);
    }
  }

  /** A length that is found is not the one the search has passed. */
  lemma MaskLengthAfter(m: int, n: nat)
    requires 0 < n <= 32 && m != TWO32 - Pow2(32 - n)
    ensures MaskLength(m, n) != n
  {
  }
}
