/** PPP configuration options and control packets (sections 5 and 6 of RFC 1661). */
module PppOptions {
  import opened Bytes

  datatype Opt = Opt(t: byte, v: seq<byte>)

  /** What packOpts builds; the length field keeps the low eight bits. */
  function Pack(o: seq<Opt>): seq<byte> {
    if o == [] then []
    else [o[0].t, (2 + |o[0].v|) % 256] + o[0].v + Pack(o[1..])
  }

  /** What parseOpts reads: None when some option is malformed. */
  function Parse(b: seq<byte>): Option<seq<Opt>> {
    if b == [] then Some([])
    else if |b| < 2 || b[1] < 2 || b[1] > |b| then None
    else
      match Parse(b[b[1]..])
      case None => None
      case Some(rest) => Some([Opt(b[0], b[2..b[1]])] + rest)
  }

  lemma PackFrom(o: seq<Opt>, i: nat)
    requires i < |o|
    ensures Pack(o[i..]) == [o[i].t, (2 + |o[i].v|) % 256] + o[i].v + Pack(o[i + 1..])
  {
    assert o[i..][1..] == o[i + 1..];
  }

  lemma Regroup(a: seq<Opt>, b: seq<Opt>, c: seq<Opt>)
    ensures a + b + c == a + (b + c)
  {
  }

  /** One well-formed option at the front. */
  lemma ParseFront(x: Opt, rest: seq<byte>)
    requires |x.v| <= 253
    ensures Parse([x.t, 2 + |x.v|] + x.v + rest)
            == match Parse(rest) case None => None case Some(more) => Some([x] + more)
  {
    hide Parse;
    var b := [x.t, 2 + |x.v|] + x.v + rest;
    ParseUnfold(b);
    assert b[b[1]..] == rest && b[2..b[1]] == x.v;
  }

  lemma ParseUnfold(b: seq<byte>)
    requires |b| >= 2 && 2 <= b[1] <= |b|
    ensures Parse(b) == match Parse(b[b[1]..]) case None => None case Some(more) => Some([Opt(b[0], b[2..b[1]])] + more)
  {
  }

  method PackOpts(o: seq<Opt>) returns (b: seq<byte>)
    ensures b == Pack(o)
  {
    b := [];
    assert o[0..] == o;
    for i := 0 to |o|
      invariant b + Pack(o[i..]) == Pack(o)
    {
      hide Pack;
      PackFrom(o, i);
      b := b + [o[i].t, (2 + |o[i].v|) % 256];
      b := b + o[i].v;
    }
    assert b + [] == b;
  }

  method ParseOpts(b: seq<byte>) returns (r: Option<seq<Opt>>)
    ensures r == Parse(b)
  {
    var o: seq<Opt>, rest: seq<byte> := [], b;
    assert Parse(b).Some? ==> o + Parse(b).value == Parse(b).value;
    while |rest| > 0
      invariant Parse(b) == match Parse(rest) case None => None case Some(more) => Some(o + more)
    {
      if |rest| < 2 || rest[1] < 2 || rest[1] > |rest| {
        return None;
      }
      ghost var tail := Parse(rest[rest[1]..]);
      assert tail.Some? ==> o + ([Opt(rest[0], rest[2..rest[1]])] + tail.value)
                            == o + [Opt(rest[0], rest[2..rest[1]])] + tail.value;
      o := o + [Opt(rest[0], rest[2..rest[1]])];
      rest := rest[rest[1]..];
    }
    assert o + [] == o;
    return Some(o);
  }

  /** Every value fits its one-byte length field. */
  ghost predicate Fits(o: seq<Opt>) {
    forall i :: 0 <= i < |o| ==> |o[i].v| <= 253
  }

  lemma FitsCons(o: seq<Opt>)
    requires o != []
    ensures Fits(o) <==> |o[0].v| <= 253 && Fits(o[1..])
  {
    assert forall i :: 1 <= i < |o| ==> o[i] == o[1..][i - 1];
  }

  /** An option too long for its length field is never read back. */
  lemma LongIsLost(x: Opt, rest: seq<byte>)
    requires |x.v| > 253
    ensures var r := Parse([x.t, (2 + |x.v|) % 256] + x.v + rest);
            r.Some? ==> r.value != [] && r.value[0] != x
  {
    var b := [x.t, (2 + |x.v|) % 256] + x.v + rest;
    if Parse(b).Some? { assert |Parse(b).value[0].v| == b[1] - 2; }
  }

  /** An option list survives packing and parsing exactly when its values fit. */
  lemma {:induction false} ParsePack(o: seq<Opt>)
    ensures Parse(Pack(o)) == Some(o) <==> Fits(o)
  {
    hide Parse, Fits;
    if o == [] {
      EmptyList();
    } else {
      var x, rest := o[0], Pack(o[1..]);
      ParsePack(o[1..]);
      FitsCons(o);
      assert o == [x] + o[1..];
      if |x.v| <= 253 {
        assert Pack(o) == [x.t, 2 + |x.v|] + x.v + rest;
        ParseFront(x, rest);
        assert Parse(rest).Some? ==> ([x] + Parse(rest).value)[1..] == Parse(rest).value;
      } else {
        assert Pack(o) == [x.t, (2 + |x.v|) % 256] + x.v + rest;
        LongIsLost(x, rest);
      }
    }
  }

  lemma EmptyList()
    ensures Parse([]) == Some([]) && Fits([])
  {
  }

  lemma ParseSome(b: seq<byte>)
    requires b != [] && Parse(b).Some?
    ensures |b| >= 2 && 2 <= b[1] <= |b| && Parse(b[b[1]..]).Some?
    ensures Parse(b).value == [Opt(b[0], b[2..b[1]])] + Parse(b[b[1]..]).value
  {
  }

  lemma PackCons(x: Opt, o: seq<Opt>)
    requires |x.v| <= 253
    ensures Pack([x] + o) == [x.t, 2 + |x.v|] + x.v + Pack(o)
  {
    assert ([x] + o)[1..] == o;
  }

  lemma ThreeParts(b: seq<byte>, n: nat)
    requires 2 <= n <= |b|
    ensures [b[0], b[1]] + b[2..n] + b[n..] == b
  {
  }

  /** Bytes that parse are the packing of what they parse to. */
  lemma {:induction false} PackParse(b: seq<byte>)
    requires Parse(b).Some?
    ensures Pack(Parse(b).value) == b
    ensures Fits(Parse(b).value)
  {
    if b == [] {
      EmptyList();
    } else {
      hide Fits, Pack, Parse;
      ParseSome(b);
      var x, rest := Opt(b[0], b[2..b[1]]), b[b[1]..];
      PackParse(rest);
      var o := [x] + Parse(rest).value;
      assert o[1..] == Parse(rest).value;
      FitsCons(o);
      PackCons(x, Parse(rest).value);
      ThreeParts(b, b[1]);
    }
  }

  /** cp: a control packet. */
  function Cp(code: byte, id: byte, data: seq<byte>): (p: seq<byte>)
    ensures |p| == 4 + |data| && p[0] == code && p[1] == id && p[4..] == data
  {
    [code, id] + Put16(4 + |data|) + data
  }

  datatype Packet = Packet(proto: int, code: byte, id: byte, data: seq<byte>, body: seq<byte>)

  /** splitPPP: drop the optional FF 03 header, read a one- or two-byte protocol. */
  function SplitPPP(f: seq<byte>): Option<(int, seq<byte>)> {
    var b := if |f| >= 2 && f[0] == 0xff && f[1] == 0x03 then f[2..] else f;
    if |b| < 1 then None
    else if b[0] % 2 == 1 then Some((b[0], b[1..]))
    else if |b| < 2 then None
    else Some((Get16(b), b[2..]))
  }

  /** The header checks of pppNegotiate; None is a frame it skips. */
  function Decode(f: seq<byte>): Option<Packet> {
    match SplitPPP(f)
    case None => None
    case Some((proto, pl)) =>
      if |pl| < 4 then None
      else
        var n := Get16(pl[2..]);
        if n < 4 || n > |pl| then None
        else Some(Packet(proto, pl[0], pl[1], pl[4..n], pl))
  }

  /** pl follows the protocol field of f, written in one odd byte or in two, the first of them even. */
  predicate Framed(f: seq<byte>, proto: int, pl: seq<byte>) {
    var b := if [0xff, 0x03] <= f then f[2..] else f;
    || (0 <= proto < 256 && proto % 2 == 1 && b == [proto] + pl)
    || (0 <= proto < 0x1_0000 && proto / 256 % 2 == 0 && b == [proto / 256, proto % 256] + pl)
  }

  /** splitPPP reads exactly these forms, with or without the FF 03 header. */
  lemma SplitExactly(f: seq<byte>, proto: int, pl: seq<byte>)
    ensures SplitPPP(f) == Some((proto, pl)) <==> Framed(f, proto, pl)
  {
    assert [0xff, 0x03] <= f <==> |f| >= 2 && f[0] == 0xff && f[1] == 0x03;
    var b := if [0xff, 0x03] <= f then f[2..] else f;
    if 0 <= proto < 256 { OneByte(b, proto, pl); }
    if 0 <= proto < TWO16 { TwoBytes(b, proto, pl); }
  }

  lemma OneByte(b: seq<byte>, proto: int, pl: seq<byte>)
    requires 0 <= proto < 256
    ensures b == [proto] + pl <==> |b| >= 1 && b[0] == proto && b[1..] == pl
  {
    if |b| >= 1 { assert b == [b[0]] + b[1..]; }
  }

  lemma TwoBytes(b: seq<byte>, proto: int, pl: seq<byte>)
    requires 0 <= proto < TWO16
    ensures b == [proto / 256, proto % 256] + pl <==>
            |b| >= 2 && Get16(b) == proto && b[2..] == pl
  {
    if |b| >= 2 { assert b == [b[0], b[1]] + b[2..]; }
  }

  /** A frame is taken as p exactly when its payload is p's header, with the length, p's data, and any padding. */
  lemma DecodeExactly(f: seq<byte>, p: Packet)
    ensures Decode(f) == Some(p) <==>
            && Framed(f, p.proto, p.body) && 4 + |p.data| < 0x1_0000
            && [p.code, p.id, (4 + |p.data|) / 256, (4 + |p.data|) % 256] + p.data <= p.body
  {
    hide SplitPPP, Framed;
    SplitExactly(f, p.proto, p.body);
    match SplitPPP(f) {
      case None =>
      case Some((proto, pl)) =>
        SplitExactly(f, proto, pl);
        var n := 4 + |p.data|;
        if n < 0x1_0000 && [p.code, p.id, n / 256, n % 256] + p.data <= p.body {
          BodyReads(p, n);
        }
        if Decode(f) == Some(p) {
          BodyIs(p, n);
        }
    }
  }

  lemma BodyReads(p: Packet, n: int)
    requires n == 4 + |p.data| < 0x1_0000 && [p.code, p.id, n / 256, n % 256] + p.data <= p.body
    ensures |p.body| >= n && p.body[0] == p.code && p.body[1] == p.id && Get16(p.body[2..]) == n
    ensures p.body[4..n] == p.data
  {
    var h := [p.code, p.id, n / 256, n % 256] + p.data;
    assert p.body[..n] == h;
    assert p.body[4..n] == p.body[..n][4..] == h[4..];
  }

  lemma BodyIs(p: Packet, n: int)
    requires 4 <= n == 4 + |p.data| <= |p.body| && Get16(p.body[2..]) == n && p.body[4..n] == p.data
    requires p.body[0] == p.code && p.body[1] == p.id
    ensures n < 0x1_0000 && [p.code, p.id, n / 256, n % 256] + p.data <= p.body
  {
    var b := p.body;
    assert b[2..][0] == b[2] && b[2..][1] == b[3];
    assert b[..n] == [b[0], b[1], b[2], b[3]] + b[4..n];
  }

  lemma HighByte(n: int)
    requires 0 <= n < TWO16
    ensures Put16(n)[0] == n / 256
  {
  }

  /** A control packet framed as SSTP and L2TP do is decoded to itself. */
  lemma DecodeCp(proto: int, code: byte, id: byte, data: seq<byte>)
    requires 0 <= proto < TWO16 && (proto / 256) % 2 == 0 && |data| <= 65531
    ensures Decode([0xff, 0x03] + Put16(proto) + Cp(code, id, data))
            == Some(Packet(proto, code, id, data, Cp(code, id, data)))
  {
    hide Put16, Get16;
    assert Put16(proto)[0] == proto / 256 by { HighByte(proto); }
    var p := Cp(code, id, data);
    var f := [0xff, 0x03] + Put16(proto) + p;
    assert f[2..] == Put16(proto) + p;
    Get16Put16(proto, p);
    assert f[2..][2..] == p;
    assert p[2..] == Put16(4 + |data|) + data;
    Get16Put16(4 + |data|, data);
    assert p[4..4 + |data|] == data;
  }
}
