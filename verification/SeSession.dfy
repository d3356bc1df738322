/** The SoftEther data channel: blocks of Ethernet frames and keep-alive records on one stream. */
module SeSession {
  import opened Bytes

  const KEEP_ALIVE := 0xffff_ffff

  /** One atomic write: a batch of frames, or a keep-alive with random padding. */
  datatype Record = Batch(frames: seq<seq<byte>>) | KeepAlive(pad: seq<byte>)

  datatype Failure = ShortRead | BadKeepAlive | BadCount | Oversized

  datatype Received = Got(frames: seq<seq<byte>>, rest: seq<byte>) | Broken(why: Failure)

  function EncodeFrames(fs: seq<seq<byte>>): seq<byte> {
    if fs == [] then [] else Put32(|fs[0]|) + fs[0] + EncodeFrames(fs[1..])
  }

  function Encode(r: Record): seq<byte> {
    match r
    case Batch(fs) => Put32(|fs|) + EncodeFrames(fs)
    case KeepAlive(pad) => Put32(KEEP_ALIVE) + Put32(|pad|) + pad
  }

  function EncodeAll(rs: seq<Record>): seq<byte> {
    if rs == [] then [] else Encode(rs[0]) + EncodeAll(rs[1..])
  }

  // ---------------------------------------------------------------- receiving

  function RecvFrames(num: nat, inp: seq<byte>, out: seq<seq<byte>>): Received
    decreases num
  {
    if num == 0 then Got(out, inp)
    else if |inp| < 4 then Broken(ShortRead)
    else
      var n := Get32(inp);
      if n > 3200 then Broken(Oversized)
      else if |inp| < 4 + n then Broken(ShortRead)
      else RecvFrames(num - 1, inp[4 + n..], out + [inp[4..4 + n]])
  }

  /** What recv returns and leaves on the stream; a keep-alive is an empty batch. */
  function Recv(inp: seq<byte>): Received {
    if |inp| < 4 then Broken(ShortRead)
    else
      var num := Get32(inp);
      if num == KEEP_ALIVE then
        if |inp| < 8 then Broken(ShortRead)
        else
          var n := Get32(inp[4..]);
          if n > 4096 then Broken(BadKeepAlive)
          else if |inp| < 8 + n then Broken(ShortRead)
          else Got([], inp[8 + n..])
      else if num > 8192 then Broken(BadCount)
      else RecvFrames(num, inp[4..], [])
  }

  /** k successive calls of recv: the batches, and the rest of the stream. */
  function RecvMany(inp: seq<byte>, k: nat): Option<(seq<seq<seq<byte>>>, seq<byte>)>
    decreases k
  {
    if k == 0 then Some(([], inp))
    else
      match Recv(inp)
      case Broken(_) => None
      case Got(fs, rest) =>
        match RecvMany(rest, k - 1)
        case None => None
        case Some((more, end)) => Some(([fs] + more, end))
  }

  // ---------------------------------------------------------------- the session

  class Session {
    var written: seq<byte>
    var unread: seq<byte>
    ghost var log: seq<Record>

    ghost predicate Valid()
      reads this
    {
      written == EncodeAll(log)
    }

    constructor (incoming: seq<byte>)
      ensures Valid() && log == [] && unread == incoming
    {
      written, unread, log := [], incoming, [];
    }

    /** send: the buffer is assembled first and written in one piece under the lock. */
    method Send(frames: seq<seq<byte>>)
      requires Valid()
      modifies this`written, this`log
      ensures Valid() && log == old(log) + [Batch(frames)]
    {
      var b := Put32(|frames|);
      for i := 0 to |frames|
        invariant written == old(written) && log == old(log)
        invariant b + EncodeFrames(frames[i..]) == Encode(Batch(frames))
      {
        assert frames[i..][1..] == frames[i + 1..];
        b := b + Put32(|frames[i]|);
        b := b + frames[i];
      }
      assert b + [] == b;
      EncodeAllSnoc(log, Batch(frames));
      written := written + b;
      log := log + [Batch(frames)];
    }

    /** keepAlive: pad stands for the random bytes. */
    method SendKeepAlive(pad: seq<byte>)
      requires Valid() && |pad| < 512
      modifies this`written, this`log
      ensures Valid() && log == old(log) + [KeepAlive(pad)]
    {
      EncodeAllSnoc(log, KeepAlive(pad));
      written := written + (Put32(KEEP_ALIVE) + Put32(|pad|) + pad);
      log := log + [KeepAlive(pad)];
    }

    method Receive() returns (r: Received)
      modifies this`unread
      ensures r == Recv(old(unread))
      ensures r.Got? ==> unread == r.rest
    {
      if |unread| < 4 { return Broken(ShortRead); }
      var num := Get32(unread);
      unread := unread[4..];
      if num == KEEP_ALIVE {
        if |unread| < 4 { return Broken(ShortRead); }
        var n := Get32(unread);
        unread := unread[4..];
        if n > 4096 { return Broken(BadKeepAlive); }
        if |unread| < n { return Broken(ShortRead); }
        unread := unread[n..];
        assert unread == old(unread)[8 + n..];
        return Got([], unread);
      }
      if num > 8192 { return Broken(BadCount); }
      var out := [];
      for i := 0 to num
        invariant RecvFrames(num, old(unread)[4..], []) == RecvFrames(num - i, unread, out)
      {
        if |unread| < 4 { return Broken(ShortRead); }
        var n := Get32(unread);
        if n > 3200 { return Broken(Oversized); }
        if |unread[4..]| < n { return Broken(ShortRead); }
        out := out + [unread[4..4 + n]];
        unread := unread[4 + n..];
      }
      return Got(out, unread);
    }
  }

  lemma {:induction false} EncodeAllSnoc(rs: seq<Record>, r: Record)
    ensures EncodeAll(rs + [r]) == EncodeAll(rs) + Encode(r)
  {
    hide Encode;
    if rs == [] {
      assert rs + [r] == [r] && [r][1..] == [];
      assert EncodeAll([r]) == Encode(r) + [];
    } else {
      assert (rs + [r])[1..] == rs[1..] + [r];
      EncodeAllSnoc(rs[1..], r);
    }
  }

  // ---------------------------------------------------------------- what arrives

  /** Within the limits recv enforces. */
  ghost predicate Sendable(r: Record) {
    match r
    case Batch(fs) => |fs| <= 8192 && forall i :: 0 <= i < |fs| ==> |fs[i]| <= 3200
    case KeepAlive(pad) => |pad| <= 4096
  }

  function Delivered(r: Record): seq<seq<byte>> {
    match r case Batch(fs) => fs case KeepAlive(_) => []
  }

  function DeliveredAll(rs: seq<Record>): seq<seq<seq<byte>>> {
    if rs == [] then [] else [Delivered(rs[0])] + DeliveredAll(rs[1..])
  }

  lemma FrameArrives(num: nat, f: seq<byte>, later: seq<byte>, out: seq<seq<byte>>)
    requires |f| <= 3200 && num > 0
    ensures RecvFrames(num, Put32(|f|) + f + later, out) == RecvFrames(num - 1, later, out + [f])
  {
    hide Put32, Get32;
    var inp := Put32(|f|) + f + later;
    Assoc3(Put32(|f|), f, later);
    Get32Put32(|f|, f + later);
    assert inp[4..4 + |f|] == f && inp[4 + |f|..] == later;
  }

  lemma {:induction false} FramesArrive(fs: seq<seq<byte>>, rest: seq<byte>, out: seq<seq<byte>>)
    requires forall i :: 0 <= i < |fs| ==> |fs[i]| <= 3200
    ensures RecvFrames(|fs|, EncodeFrames(fs) + rest, out) == Got(out + fs, rest)
    decreases |fs|
  {
    hide Put32;
    if fs == [] {
      assert EncodeFrames(fs) + rest == rest && out + fs == out;
    } else {
      hide RecvFrames;
      var later := EncodeFrames(fs[1..]) + rest;
      Assoc4(Put32(|fs[0]|), fs[0], EncodeFrames(fs[1..]), rest);
      FrameArrives(|fs|, fs[0], later, out);
      FramesArrive(fs[1..], rest, out + [fs[0]]);
      assert out + [fs[0]] + fs[1..] == out + fs;
    }
  }

  lemma BatchArrives(fs: seq<seq<byte>>, rest: seq<byte>)
    requires Sendable(Batch(fs))
    ensures Recv(Encode(Batch(fs)) + rest) == Got(fs, rest)
  {
    hide Put32, Get32, RecvFrames, EncodeFrames;
    var body := EncodeFrames(fs) + rest;
    Assoc3(Put32(|fs|), EncodeFrames(fs), rest);
    Get32Put32(|fs|, body);
    assert (Put32(|fs|) + body)[4..] == body;
    FramesArrive(fs, rest, []);
    assert [] + fs == fs;
  }

  lemma KeepAliveArrives(pad: seq<byte>, rest: seq<byte>)
    requires |pad| <= 4096
    ensures Recv(Encode(KeepAlive(pad)) + rest) == Got([], rest)
  {
    hide Put32, Get32, RecvFrames;
    var inp := Encode(KeepAlive(pad)) + rest;
    var body := Put32(|pad|) + (pad + rest);
    assert inp == Put32(KEEP_ALIVE) + body;
    Get32Put32(KEEP_ALIVE, body);
    assert inp[4..] == body;
    Get32Put32(|pad|, pad + rest);
    assert inp[8 + |pad|..] == rest;
  }

  lemma RecordArrives(r: Record, rest: seq<byte>)
    requires Sendable(r)
    ensures Recv(Encode(r) + rest) == Got(Delivered(r), rest)
  {
    hide Encode, Recv;
    match r {
      case Batch(fs) => BatchArrives(fs, rest);
      case KeepAlive(pad) => KeepAliveArrives(pad, rest);
    }
  }

  /** Whatever was written, in whatever order, comes out of recv batch by batch. */
  lemma {:induction false} AllArrive(rs: seq<Record>, rest: seq<byte>)
    requires forall i :: 0 <= i < |rs| ==> Sendable(rs[i])
    ensures RecvMany(EncodeAll(rs) + rest, |rs|) == Some((DeliveredAll(rs), rest))
    decreases |rs|
  {
    hide Encode, Recv, Delivered, Sendable;
    if rs == [] {
      assert EncodeAll(rs) + rest == rest;
    } else {
      var later := EncodeAll(rs[1..]) + rest;
      assert EncodeAll(rs) + rest == Encode(rs[0]) + later;
      RecordArrives(rs[0], later);
      AllArrive(rs[1..], rest);
    }
  }

  // ---------------------------------------------------------------- and nothing else does

  /** The bytes of a record: a count and frames with their lengths, or the mark, a length and padding. */
  lemma RecordBytes(f: seq<byte>, pad: seq<byte>)
    requires |f| < TWO16 && |pad| < TWO16
    ensures Encode(Batch([f])) == [0, 0, 0, 1, 0, 0, |f| / 256, |f| % 256] + f
    ensures Encode(KeepAlive(pad)) == [255, 255, 255, 255, 0, 0, |pad| / 256, |pad| % 256] + pad
  {
    assert EncodeFrames([f]) == Put32(|f|) + f by { assert EncodeFrames([f][1..]) == []; }
    assert Put32(1) == [0, 0, 0, 1] && Put32(KEEP_ALIVE) == [255, 255, 255, 255];
    assert Put32(|f|) == [0, 0, |f| / 256, |f| % 256] && Put32(|pad|) == [0, 0, |pad| / 256, |pad| % 256];
  }

  lemma FrontIs(inp: seq<byte>)
    requires |inp| >= 4
    ensures inp == Put32(Get32(inp)) + inp[4..]
  {
    hide Put32, Get32;
    PutGet32(inp);
  }

  /** Frames that are taken were written within the limits, one by one. */
  lemma {:induction false} FramesWere(num: nat, inp: seq<byte>, out: seq<seq<byte>>) returns (fs: seq<seq<byte>>)
    requires RecvFrames(num, inp, out).Got?
    ensures var g := RecvFrames(num, inp, out);
            && |fs| == num && g.frames == out + fs && inp == EncodeFrames(fs) + g.rest
            && forall i :: 0 <= i < |fs| ==> |fs[i]| <= 3200
    decreases num
  {
    hide Put32, Get32;
    if num == 0 {
      fs := [];
      assert out + fs == out && EncodeFrames(fs) + inp == inp;
    } else {
      var n := Get32(inp);
      var f, later := inp[4..4 + n], inp[4 + n..];
      FrontIs(inp);
      var more := FramesWere(num - 1, later, out + [f]);
      fs := [f] + more;
      assert fs[1..] == more && out + fs == out + [f] + more;
      var g := RecvFrames(num, inp, out);
      assert inp[4..] == f + later;
      assert inp == Put32(n) + f + (EncodeFrames(more) + g.rest);
      Assoc4(Put32(n), f, EncodeFrames(more), g.rest);
    }
  }

  /** recv takes exactly what some record within the limits puts on the wire. */
  lemma RecvExactly(inp: seq<byte>, fs: seq<seq<byte>>, rest: seq<byte>)
    ensures Recv(inp) == Got(fs, rest) <==>
            exists r: Record :: Sendable(r) && inp == Encode(r) + rest && Delivered(r) == fs
  {
    if r: Record :| Sendable(r) && inp == Encode(r) + rest && Delivered(r) == fs {
      RecordArrives(r, rest);
    }
    if Recv(inp) == Got(fs, rest) {
      var r := RecordWas(inp, fs, rest);
      assert Sendable(r) && inp == Encode(r) + rest && Delivered(r) == fs;
    }
  }

  lemma RecordWas(inp: seq<byte>, fs: seq<seq<byte>>, rest: seq<byte>) returns (r: Record)
    requires Recv(inp) == Got(fs, rest)
    ensures Sendable(r) && inp == Encode(r) + rest && Delivered(r) == fs
  {
    hide Put32, Get32, RecvFrames, EncodeFrames;
    var num := Get32(inp);
    FrontIs(inp);
    if num == KEEP_ALIVE {
      var n := Get32(inp[4..]);
      var pad := inp[8..8 + n];
      r := KeepAlive(pad);
      FrontIs(inp[4..]);
      assert inp[8..] == pad + rest && inp[4..][4..] == inp[8..];
      assert inp == Put32(KEEP_ALIVE) + (Put32(n) + (pad + rest));
      assert Encode(r) + rest == Put32(KEEP_ALIVE) + (Put32(n) + (pad + rest));
    } else {
      var got := FramesWere(num, inp[4..], []);
      assert [] + got == got;
      r := Batch(fs);
      Assoc3(Put32(num), EncodeFrames(fs), rest);
    }
  }

  /** Why recv gives up on a count or a keep-alive. */
  lemma RefusedExactly(inp: seq<byte>)
    ensures Recv(inp) == Broken(BadKeepAlive) <==>
            |inp| >= 8 && inp[..4] == [255, 255, 255, 255] && Get32(inp[4..]) > 4096
    ensures Recv(inp) == Broken(BadCount) <==>
            |inp| >= 4 && inp[..4] != [255, 255, 255, 255] && Get32(inp) > 8192
  {
    hide RecvFrames, Put32, Get32;
    if |inp| >= 4 {
      FrontIs(inp);
      assert Put32(KEEP_ALIVE) == [255, 255, 255, 255] by { MarkBytes(); }
      assert inp[..4] == Put32(Get32(inp));
      if inp[..4] == [255, 255, 255, 255] {
        Get32Put32(Get32(inp), []);
        Get32Put32(KEEP_ALIVE, []);
        GetRange(inp);
      }
      NoCountError(Get32(inp), inp[4..], []);
    }
  }

  lemma GetRange(inp: seq<byte>)
    requires |inp| >= 4
    ensures 0 <= Get32(inp) < TWO32
  {
  }

  lemma MarkBytes()
    ensures Put32(KEEP_ALIVE) == [255, 255, 255, 255]
  {
  }

  lemma {:induction false} NoCountError(num: nat, inp: seq<byte>, out: seq<seq<byte>>)
    ensures var r := RecvFrames(num, inp, out); r.Broken? ==> r.why == ShortRead || r.why == Oversized
    decreases num
  {
    hide Get32;
    if num > 0 && |inp| >= 4 && |inp| >= 4 + Get32(inp) {
      NoCountError(num - 1, inp[4 + Get32(inp)..], out + [inp[4..4 + Get32(inp)]]);
    }
  }
}
