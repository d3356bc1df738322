/** wsConn: WebSocket framing over a byte stream (sections 5.2 and 5.3 of RFC 6455). */
module WebSocket {
  import opened Bytes

  // ---------------------------------------------------------------- the reader

  /** A frame header: opcode, the 64-bit length as a signed number, and what follows it. */
  datatype Header = Short | Header(op: int, ln: int, rest: seq<byte>)

  /** int64(u) for an unsigned 64-bit u. */
  function Signed64(u: int): int { if u >= TWO63 then u - TWO64 else u }

  function SkipKey(masked: bool, op: int, ln: int, rest: seq<byte>): Header {
    if !masked then Header(op, ln, rest)
    else if |rest| < 4 then Short
    else Header(op, ln, rest[4..])
  }

  function ReadHeader(inp: seq<byte>): (h: Header)
    ensures h.Header? ==> |h.rest| + 2 <= |inp|
  {
    if |inp| < 2 then Short
    else
      var op, masked, ln, r := inp[0] % 16, inp[1] >= 128, inp[1] % 128, inp[2..];
      if ln == 126 then (if |r| < 2 then Short else SkipKey(masked, op, Get16(r), r[2..]))
      else if ln == 127 then (if |r| < 8 then Short else SkipKey(masked, op, Signed64(Get64(r)), r[8..]))
      else SkipKey(masked, op, ln, r)
  }

  datatype Failure = ShortRead | Closed | Crash

  /** Where the header loop of Read ends: inside a data frame, or with an error; and what is unread then. */
  datatype Sought = Data(left: int, rest: seq<byte>) | Stop(why: Failure, rest: seq<byte>)

  /** The header loop; a short read has consumed everything there was. */
  function Seek(inp: seq<byte>): (s: Sought)
    ensures s.Stop? ==> s == Stop(ShortRead, []) || (s.why == Closed && |s.rest| + 2 <= |inp|)
    ensures s.Data? ==> s.left != 0
    decreases |inp|
  {
    match ReadHeader(inp)
    case Short => Stop(ShortRead, [])
    case Header(op, ln, rest) =>
      if op == 8 then Stop(Closed, rest)
      else if op == 9 || op == 10 then
        if ln > |rest| then Stop(ShortRead, []) else Seek(if ln < 0 then rest else rest[ln..])
      else if ln == 0 then Seek(rest)
      else Data(ln, rest)
  }

  datatype Result = Ok(data: seq<byte>) | Err(why: Failure)

  /** The connection between calls. */
  datatype Conn = Conn(left: int, inp: seq<byte>)

  /** One call of the underlying Read into n bytes; k is how much it would hand out at once. */
  function ReadBelow(c: Conn, n: nat, k: nat): (Conn, Result) {
    if n == 0 then (c, Ok([]))
    else if c.inp == [] then (c, Err(ShortRead))
    else
      var m := if k <= n && k <= |c.inp| then k else if n <= |c.inp| then n else |c.inp|;
      (Conn(c.left - m, c.inp[m..]), Ok(c.inp[..m]))
  }

  /** Read into a buffer of size bytes: the connection it leaves behind, also after an error, and its result. */
  function Read(c: Conn, size: nat, k: nat): (Conn, Result) {
    var s := if c.left == 0 then Seek(c.inp) else Data(c.left, c.inp);
    match s
    case Stop(why, rest) => (Conn(0, rest), Err(why))
    case Data(left, rest) =>
      if size > left then
        if left < 0 then (Conn(left, rest), Err(Crash)) else ReadBelow(Conn(left, rest), left, k)
      else ReadBelow(Conn(left, rest), size, k)
  }

  class WsConn {
    var left: int
    var inp: seq<byte>

    constructor (inp: seq<byte>)
      ensures left == 0 && this.inp == inp
    {
      left := 0;
      this.inp := inp;
    }

    /** The header loop of Read. */
    method NextFrame() returns (failed: Option<Failure>)
      requires left == 0
      modifies this
      ensures Seek(old(inp)) == match failed case None => Data(left, inp) case Some(why) => Stop(why, inp)
      ensures failed.Some? ==> left == 0
    {
      while left == 0
        invariant left == 0 ==> Seek(inp) == Seek(old(inp))
        invariant left != 0 ==> Seek(old(inp)) == Data(left, inp)
        decreases left == 0, |inp|
      {
        var h := ReadHeader(inp);
        if h.Short? {
          inp := [];
          return Some(ShortRead);
        }
        inp := h.rest;
        if h.op == 8 { return Some(Closed); }
        if h.op == 9 || h.op == 10 {
          if h.ln > |inp| {
            inp := [];
            return Some(ShortRead);
          }
          if h.ln > 0 { inp := inp[h.ln..]; }
          continue;
        }
        left := h.ln;
      }
      failed := None;
    }

    method ReadInto(size: nat, k: nat) returns (r: Result)
      modifies this
      ensures (Conn(left, inp), r) == Read(old(Conn(left, inp)), size, k)
    {
      hide Seek, ReadHeader;
      if left == 0 {
        var failed := NextFrame();
        if failed.Some? { return Err(failed.value); }
      }
      var n := size;
      if size > left {
        if left < 0 { return Err(Crash); }
        n := left;
      }
      if n == 0 { return Ok([]); }
      if inp == [] { return Err(ShortRead); }
      var m := if k <= n && k <= |inp| then k else if n <= |inp| then n else |inp|;
      r := Ok(inp[..m]);
      left, inp := left - m, inp[m..];
    }
  }

  // ---------------------------------------------------------------- what a server sends

  datatype Form = Seven | Sixteen | SixtyFour

  /** An unmasked frame; flags are the high four bits of its first byte. */
  datatype Frame = Frame(flags: int, op: int, form: Form, payload: seq<byte>)

  /** The length fits the form chosen, and the top bit of a 64-bit length is clear. */
  predicate Sendable(f: Frame) {
    && 0 <= f.flags < 16 && 0 <= f.op < 16
    && match f.form
       case Seven => |f.payload| < 126
       case Sixteen => |f.payload| < TWO16
       case SixtyFour => |f.payload| < TWO63
  }

  function Head(f: Frame): seq<byte>
    requires Sendable(f)
  {
    [f.flags * 16 + f.op] +
    match f.form
    case Seven => [|f.payload|]
    case Sixteen => [126] + Put16(|f.payload|)
    case SixtyFour => [127] + Put64(|f.payload|)
  }

  ghost predicate AllSendable(fs: seq<Frame>) {
    forall i :: 0 <= i < |fs| ==> Sendable(fs[i])
  }

  function Encode(fs: seq<Frame>): seq<byte>
    requires AllSendable(fs)
  {
    if fs == [] then [] else Head(fs[0]) + fs[0].payload + Encode(fs[1..])
  }

  /** The data-frame payloads before the first Close. */
  function Payloads(fs: seq<Frame>): seq<byte> {
    if fs == [] || fs[0].op == 8 then []
    else if fs[0].op == 9 || fs[0].op == 10 then Payloads(fs[1..])
    else fs[0].payload + Payloads(fs[1..])
  }

  /** What follows the header of the first Close: its payload and all later frames. */
  function FromClose(fs: seq<Frame>): Option<seq<byte>>
    requires AllSendable(fs)
  {
    if fs == [] then None
    else if fs[0].op == 8 then Some(fs[0].payload + Encode(fs[1..]))
    else FromClose(fs[1..])
  }

  /** cur is what the current frame still owes, fs what follows it, lost what the peer never sent. */
  ghost predicate Synced(c: Conn, cur: seq<byte>, fs: seq<Frame>, lost: seq<byte>) {
    && AllSendable(fs)
    && c.left == |cur|
    && c.inp + lost == cur + Encode(fs)
  }

  // ---------------------------------------------------------------- reading what was sent

  lemma HeadBytes(f: Frame, b: seq<byte>)
    requires Sendable(f) && |b| >= 2 && b[0] == f.flags * 16 + f.op
    ensures b[0] % 16 == f.op
  {
  }

  /** A whole header is read back; a cut one is a short read. */
  lemma HeaderReads(f: Frame, more: seq<byte>, inp: seq<byte>, lost: seq<byte>)
    requires Sendable(f) && inp + lost == Head(f) + more
    ensures ReadHeader(inp) == if |inp| < |Head(f)| then Short
                               else Header(f.op, |f.payload|, inp[|Head(f)|..])
  {
    hide Put16, Put64, Get16, Get64;
    var all := inp + lost;
    var n := |f.payload|;
    if |inp| >= 2 {
      assert inp[0] == all[0] && inp[1] == all[1];
      HeadBytes(f, inp);
      var r := inp[2..];
      assert all[2..] == r + lost;
      match f.form {
        case Seven =>
        case Sixteen =>
          assert all[2..] == Put16(n) + more;
          if |r| >= 2 {
            assert r == Put16(n) + r[2..] by { assert r[..2] == (Put16(n) + more)[..2]; }
            Get16Put16(n, r[2..]);
            assert inp[4..] == r[2..];
          }
        case SixtyFour =>
          assert all[2..] == Put64(n) + more;
          if |r| >= 8 {
            assert r == Put64(n) + r[8..] by { assert r[..8] == (Put64(n) + more)[..8]; }
            Get64Put64(n, r[8..]);
            assert inp[10..] == r[8..];
          }
      }
    }
  }

  /**
    The header loop stops inside the first non-empty data frame, having skipped only control
    payload, or behind the header of the first Close, or at the end of the stream.
    */
  lemma {:induction false} SeekFinds(fs: seq<Frame>, inp: seq<byte>, lost: seq<byte>)
    returns (cur: seq<byte>, rest: seq<Frame>)
    requires AllSendable(fs) && inp + lost == Encode(fs)
    ensures AllSendable(rest)
    ensures Seek(inp).Data? ==>
              && Synced(Conn(Seek(inp).left, Seek(inp).rest), cur, rest, lost) && cur != []
              && cur + Payloads(rest) == Payloads(fs) && FromClose(rest) == FromClose(fs)
    ensures Seek(inp).Stop? && Seek(inp).why == Closed ==>
              && Payloads(fs) == []
              && FromClose(fs).Some? && Seek(inp).rest + lost == FromClose(fs).value
    decreases |fs|
  {
    hide Head, Sendable, ReadHeader;
    cur, rest := [], fs;
    if fs == [] {
      assert inp == [];
      assert ReadHeader(inp) == Short by { EmptyIsShort(); }
    } else {
      var f, tail := fs[0], fs[1..];
      assert AllSendable(tail);
      assert inp + lost == Head(f) + (f.payload + Encode(tail));
      HeaderReads(f, f.payload + Encode(tail), inp, lost);
      if |inp| >= |Head(f)| {
        var r := inp[|Head(f)|..];
        assert r + lost == f.payload + Encode(tail) by { assert r + lost == (inp + lost)[|Head(f)|..]; }
        if f.op == 8 {
        } else if f.op == 9 || f.op == 10 || f.payload == [] {
          if |f.payload| <= |r| {
            assert r[|f.payload|..] + lost == (r + lost)[|f.payload|..] == Encode(tail);
            cur, rest := SeekFinds(tail, r[|f.payload|..], lost);
            if f.payload == [] { assert r[0..] == r; }
          }
        } else {
          cur, rest := f.payload, tail;
        }
      }
    }
  }

  lemma EmptyIsShort()
    ensures ReadHeader([]) == Short
  {
  }

  lemma BelowKeeps(c: Conn, cur: seq<byte>, fs: seq<Frame>, lost: seq<byte>, n: nat, k: nat)
    requires Synced(c, cur, fs, lost) && n <= |cur|
    ensures var (d, r) := ReadBelow(c, n, k);
            && (r.Err? ==> r == Err(ShortRead) && d == c && c.inp == [])
            && (r.Ok? ==> |r.data| <= |cur| && r.data == cur[..|r.data|] && Synced(d, cur[|r.data|..], fs, lost))
  {
    hide Encode;
    var (d, r) := ReadBelow(c, n, k);
    if r.Ok? {
      var m := |r.data|;
      var all := c.inp + lost;
      assert r.data == all[..m] == cur[..m];
      assert c.inp[m..] + lost == all[m..] == cur[m..] + Encode(fs);
    }
  }

  /**
    One Read hands out the next bytes owed and leaves the connection in step; or it reports the
    Close with everything delivered and stops behind its header; or the stream is used up.
    */
  lemma ReadKeeps(c: Conn, cur: seq<byte>, fs: seq<Frame>, lost: seq<byte>, size: nat, k: nat)
    returns (cur': seq<byte>, fs': seq<Frame>)
    requires Synced(c, cur, fs, lost)
    ensures var (d, r) := Read(c, size, k);
            && r != Err(Crash)
            && (r.Ok? ==> && Synced(d, cur', fs', lost) && FromClose(fs') == FromClose(fs)
                          && r.data + cur' + Payloads(fs') == cur + Payloads(fs))
            && (r == Err(Closed) ==> && cur + Payloads(fs) == [] && d.left == 0
                                     && FromClose(fs).Some? && d.inp + lost == FromClose(fs).value)
            && (r == Err(ShortRead) ==> d.left >= 0 && d.inp == [])
  {
    hide Encode, Payloads, Seek, ReadBelow, FromClose;
    cur', fs' := cur, fs;
    var e := c;
    if c.left == 0 {
      assert c.inp + lost == Encode(fs);
      cur', fs' := SeekFinds(fs, c.inp, lost);
      SeekStops(c.inp);
      if Seek(c.inp).Stop? { return; }
      e := Conn(Seek(c.inp).left, Seek(c.inp).rest);
    }
    assert cur' + Payloads(fs') == cur + Payloads(fs);
    var n := if size > e.left then e.left else size;
    BelowKeeps(e, cur', fs', lost, n, k);
    var r := ReadBelow(e, n, k).1;
    if r.Ok? {
      var m := |r.data|;
      assert r.data + cur'[m..] == cur';
      cur' := cur'[m..];
    }
  }

  lemma SeekStops(inp: seq<byte>)
    ensures var s := Seek(inp); s.Stop? ==> s == Stop(ShortRead, []) || s.why == Closed
  {
  }

  /** On an uncut stream the header loop finds the data that is still to come. */
  lemma {:induction false} SeekProgresses(fs: seq<Frame>)
    requires AllSendable(fs) && Payloads(fs) != []
    ensures Seek(Encode(fs)).Data?
    decreases |fs|
  {
    hide Head, Sendable, ReadHeader;
    var f, tail, inp := fs[0], fs[1..], Encode(fs);
    assert AllSendable(tail);
    assert inp + [] == Head(f) + (f.payload + Encode(tail));
    HeaderReads(f, f.payload + Encode(tail), inp, []);
    assert inp[|Head(f)|..] == f.payload + Encode(tail);
    if f.op == 9 || f.op == 10 || f.payload == [] {
      assert (f.payload + Encode(tail))[|f.payload|..] == Encode(tail);
      SeekProgresses(tail);
    }
  }

  /** On an uncut stream a Read with room and a willing connection makes progress while data is owed. */
  lemma ReadProgresses(c: Conn, cur: seq<byte>, fs: seq<Frame>, size: nat, k: nat)
    requires Synced(c, cur, fs, []) && cur + Payloads(fs) != [] && size > 0 && k > 0
    ensures Read(c, size, k).1.Ok? && Read(c, size, k).1.data != []
  {
    hide Encode, Payloads, Seek;
    assert c.inp + [] == c.inp;
    if c.left == 0 {
      assert c.inp == Encode(fs);
      SeekProgresses(fs);
      var cur', fs' := SeekFinds(fs, c.inp, []);
      var rest := Seek(c.inp).rest;
      assert rest + [] == rest && |rest| >= |cur'| > 0;
    }
  }

  // ---------------------------------------------------------------- runs up to the first error

  /** A run of Reads: the connection left, the bytes handed out, and the error that ended it, if any. */
  datatype Ran = Ran(c: Conn, data: seq<byte>, failed: Option<Failure>)

  /** Successive Reads, up to the first error. */
  function Drain(c: Conn, calls: seq<(nat, nat)>): Ran
    decreases |calls|
  {
    if calls == [] then Ran(c, [], None)
    else
      match Read(c, calls[0].0, calls[0].1)
      case (d, Err(why)) => Ran(d, [], Some(why))
      case (d, Ok(data)) =>
        var r := Drain(d, calls[1..]);
        r.(data := data + r.data)
  }

  /** What such a run has delivered of what was owed, by how it ended. */
  ghost predicate Faithful(r: Ran, owed: seq<byte>, close: Option<seq<byte>>, lost: seq<byte>) {
    && r.data <= owed
    && match r.failed
       case None => exists cur, fs :: Synced(r.c, cur, fs, lost) && r.data + cur + Payloads(fs) == owed
       case Some(Closed) => r.data == owed && r.c.left == 0 && close.Some? && r.c.inp + lost == close.value
       case Some(ShortRead) => r.c.inp == []
       case Some(Crash) => false
  }

  lemma FaithfulStep(data: seq<byte>, r: Ran, owed: seq<byte>, close: Option<seq<byte>>, lost: seq<byte>)
    requires Faithful(r, owed, close, lost)
    ensures Faithful(r.(data := data + r.data), data + owed, close, lost)
  {
    hide Synced, Payloads;
    assert data + r.data <= data + owed;
    if r.failed.None? {
      var cur, fs :| Synced(r.c, cur, fs, lost) && r.data + cur + Payloads(fs) == owed;
      assert data + r.data + cur + Payloads(fs) == data + (r.data + cur + Payloads(fs));
    }
  }

  lemma {:induction false} DrainKeeps(c: Conn, cur: seq<byte>, fs: seq<Frame>, lost: seq<byte>, calls: seq<(nat, nat)>)
    requires Synced(c, cur, fs, lost)
    ensures Faithful(Drain(c, calls), cur + Payloads(fs), FromClose(fs), lost)
    decreases |calls|
  {
    hide Payloads, Read, FromClose, Encode;
    if calls == [] {
      assert [] + cur + Payloads(fs) == cur + Payloads(fs);
    } else {
      var cur1, fs1 := ReadKeeps(c, cur, fs, lost, calls[0].0, calls[0].1);
      var (d, r) := Read(c, calls[0].0, calls[0].1);
      if r.Ok? {
        DrainKeeps(d, cur1, fs1, lost, calls[1..]);
        assert r.data + cur1 + Payloads(fs1) == r.data + (cur1 + Payloads(fs1));
        FaithfulStep(r.data, Drain(d, calls[1..]), cur1 + Payloads(fs1), FromClose(fs1), lost);
      }
    }
  }

  /**
    For any unmasked frames, any buffer sizes, any short reads and any cut of the stream, the
    results up to the first error are a prefix of the data payloads before the first Close; left
    is always what the current frame still owes; no Read crashes; when the Close is reported
    everything was delivered and the stream stands behind its header.
    */
  lemma ReadsArePrefix(fs: seq<Frame>, inp: seq<byte>, lost: seq<byte>, calls: seq<(nat, nat)>)
    requires AllSendable(fs) && inp + lost == Encode(fs)
    ensures Faithful(Drain(Conn(0, inp), calls), Payloads(fs), FromClose(fs), lost)
    ensures Drain(Conn(0, inp), calls).failed != Some(Crash)
  {
    hide Drain, Payloads, Encode, FromClose;
    assert [] + Encode(fs) == Encode(fs);
    DrainKeeps(Conn(0, inp), [], fs, lost, calls);
    assert [] + Payloads(fs) == Payloads(fs);
  }

  // ---------------------------------------------------------------- reading on after an error

  /** Successive Reads, errors or not: the connection left and all bytes handed out. */
  function ReadOn(c: Conn, calls: seq<(nat, nat)>): (Conn, seq<byte>)
    decreases |calls|
  {
    if calls == [] then (c, [])
    else
      var (d, r) := Read(c, calls[0].0, calls[0].1);
      var (e, more) := ReadOn(d, calls[1..]);
      (e, (if r.Ok? then r.data else []) + more)
  }

  /** Reading on from these bytes comes to a byte of some data frame, over any number of Closes. */
  predicate Speaks(inp: seq<byte>)
    decreases |inp|
  {
    match Seek(inp)
    case Data(left, rest) => left > 0 && rest != []
    case Stop(why, rest) => why == Closed && Speaks(rest)
  }

  /** No Read will ever hand out a byte again. */
  predicate Mute(c: Conn) {
    c.left < 0 || (c.left > 0 && c.inp == []) || (c.left == 0 && !Speaks(c.inp))
  }

  lemma MuteStays(c: Conn, size: nat, k: nat)
    requires Mute(c)
    ensures var (d, r) := Read(c, size, k); Mute(d) && (r.Ok? ==> r.data == [])
  {
    NothingSpeaksNot();
  }

  lemma NothingSpeaksNot()
    ensures !Speaks([])
  {
    EmptyIsShort();
  }

  lemma {:induction false} MuteForever(c: Conn, calls: seq<(nat, nat)>)
    requires Mute(c)
    ensures ReadOn(c, calls).1 == []
    decreases |calls|
  {
    hide Read, Mute;
    if calls != [] {
      MuteStays(c, calls[0].0, calls[0].1);
      MuteForever(Read(c, calls[0].0, calls[0].1).0, calls[1..]);
    }
  }

  lemma {:induction false} SpeaksReads(inp: seq<byte>) returns (calls: seq<(nat, nat)>)
    requires Speaks(inp)
    ensures ReadOn(Conn(0, inp), calls).1 != []
    decreases |inp|
  {
    var first: seq<(nat, nat)> := [(1, 1)];
    match Seek(inp) {
      case Data(left, rest) =>
        calls := first;
        assert Read(Conn(0, inp), 1, 1) == (Conn(left - 1, rest[1..]), Ok(rest[..1]));
      case Stop(why, rest) =>
        var more := SpeaksReads(rest);
        calls := first + more;
        assert calls[1..] == more;
        assert Read(Conn(0, inp), 1, 1) == (Conn(0, rest), Err(Closed));
    }
  }

  /** From any connection: some run of Reads hands out a byte exactly when the connection is not mute. */
  lemma MuteExactly(c: Conn)
    ensures (exists calls :: ReadOn(c, calls).1 != []) <==> !Mute(c)
  {
    hide Seek, Speaks;
    if Mute(c) {
      forall calls
        ensures ReadOn(c, calls).1 == []
      {
        MuteForever(c, calls);
      }
    } else if c.left == 0 {
      var calls := SpeaksReads(c.inp);
    } else {
      var calls: seq<(nat, nat)> := [(1, 1)];
      assert Read(c, 1, 1) == (Conn(c.left - 1, c.inp[1..]), Ok(c.inp[..1]));
      assert ReadOn(c, calls).1 == c.inp[..1] + [];
      assert ReadOn(c, calls).1 != [];
    }
  }

  /** The bytes of a stream that arrive after the header of the first Close, if that arrives. */
  function Behind(fs: seq<Frame>, lost: seq<byte>): Option<seq<byte>>
    requires AllSendable(fs)
  {
    match FromClose(fs)
    case None => None
    case Some(b) => if |lost| <= |b| then Some(b[..|b| - |lost|]) else None
  }

  /** Reading on hands out bytes from behind the Close. */
  predicate Overruns(fs: seq<Frame>, lost: seq<byte>)
    requires AllSendable(fs)
  {
    Behind(fs, lost).Some? && Speaks(Behind(fs, lost).value)
  }

  lemma BehindIs(fs: seq<Frame>, lost: seq<byte>, r: seq<byte>)
    requires AllSendable(fs) && FromClose(fs).Some? && r + lost == FromClose(fs).value
    ensures Behind(fs, lost) == Some(r)
  {
    hide FromClose;
  }

  /** Unless the bytes behind the Close speak, the connection is mute after an error. */
  lemma ErrorMutes(c: Conn, cur: seq<byte>, fs: seq<Frame>, lost: seq<byte>, size: nat, k: nat)
    requires Synced(c, cur, fs, lost) && !Overruns(fs, lost) && Read(c, size, k).1.Err?
    ensures Mute(Read(c, size, k).0)
  {
    hide Payloads, Read, FromClose, Encode, Speaks;
    var cur', fs' := ReadKeeps(c, cur, fs, lost, size, k);
    var (d, r) := Read(c, size, k);
    match r.why {
      case Closed => BehindIs(fs, lost, d.inp);
      case ShortRead => NothingSpeaksNot();
      case Crash => assert false;
    }
  }

  lemma {:induction false} ReadOnKeeps(c: Conn, cur: seq<byte>, fs: seq<Frame>, lost: seq<byte>, calls: seq<(nat, nat)>)
    requires Synced(c, cur, fs, lost) && !Overruns(fs, lost)
    ensures ReadOn(c, calls).1 <= cur + Payloads(fs)
    decreases |calls|
  {
    hide Payloads, Read, FromClose, Encode, Mute, Speaks;
    if calls != [] {
      var cur1, fs1 := ReadKeeps(c, cur, fs, lost, calls[0].0, calls[0].1);
      var (d, r) := Read(c, calls[0].0, calls[0].1);
      if r.Ok? {
        ReadOnKeeps(d, cur1, fs1, lost, calls[1..]);
        assert r.data + cur1 + Payloads(fs1) == r.data + (cur1 + Payloads(fs1));
      } else {
        ErrorMutes(c, cur, fs, lost, calls[0].0, calls[0].1);
        MuteForever(d, calls[1..]);
      }
    }
  }

  lemma {:induction false} CloseIsInside(fs: seq<Frame>)
    requires AllSendable(fs) && FromClose(fs).Some?
    ensures |FromClose(fs).value| <= |Encode(fs)|
    decreases |fs|
  {
    if fs[0].op != 8 {
      assert AllSendable(fs[1..]);
      CloseIsInside(fs[1..]);
    }
  }

  /** When the Close header arrives, the loop finds the data before it, or else the Close. */
  lemma {:induction false} SeekReaches(fs: seq<Frame>, inp: seq<byte>, lost: seq<byte>)
    requires AllSendable(fs) && inp + lost == Encode(fs) && Behind(fs, lost).Some?
    ensures if Payloads(fs) == [] then Seek(inp) == Stop(Closed, Behind(fs, lost).value) else Seek(inp).Data?
    decreases |fs|
  {
    hide Head, Sendable, ReadHeader;
    var f, tail := fs[0], fs[1..];
    assert AllSendable(tail);
    assert inp + lost == Head(f) + (f.payload + Encode(tail));
    HeaderReads(f, f.payload + Encode(tail), inp, lost);
    var all := f.payload + Encode(tail);
    if f.op == 8 {
      assert inp[|Head(f)|..] + lost == (inp + lost)[|Head(f)|..] == all;
      BehindIs(fs, lost, inp[|Head(f)|..]);
    } else {
      CloseIsInside(tail);
      var r := inp[|Head(f)|..];
      assert r + lost == (inp + lost)[|Head(f)|..] == all;
      if f.op == 9 || f.op == 10 || f.payload == [] {
        assert r[|f.payload|..] + lost == (r + lost)[|f.payload|..] == Encode(tail);
        if f.payload == [] { assert r[0..] == r; }
        SeekReaches(tail, r[|f.payload|..], lost);
      }
    }
  }

  lemma {:induction false} ReadOnConcat(c: Conn, a: seq<(nat, nat)>, b: seq<(nat, nat)>)
    ensures var (d, x) := ReadOn(c, a);
            var (e, y) := ReadOn(d, b);
            ReadOn(c, a + b) == (e, x + y)
    decreases |a|
  {
    hide Read;
    if a == [] {
      assert a + b == b;
      assert [] + ReadOn(c, b).1 == ReadOn(c, b).1;
    } else {
      var (d, r) := Read(c, a[0].0, a[0].1);
      assert (a + b)[1..] == a[1..] + b;
      ReadOnConcat(d, a[1..], b);
      var y := ReadOn(ReadOn(d, a[1..]).0, b).1;
      var got := if r.Ok? then r.data else [];
      assert got + ReadOn(d, a[1..]).1 + y == got + (ReadOn(d, a[1..]).1 + y);
    }
  }

  /** One Read of one byte while data is owed and the Close header is on its way. */
  lemma OneByte(c: Conn, cur: seq<byte>, fs: seq<Frame>, lost: seq<byte>)
    requires Synced(c, cur, fs, lost) && Behind(fs, lost).Some? && cur + Payloads(fs) != []
    ensures Read(c, 1, 1).1.Ok? && |Read(c, 1, 1).1.data| == 1
  {
    hide Encode, Payloads, Seek, FromClose;
    if c.left == 0 {
      assert c.inp + lost == Encode(fs);
      SeekReaches(fs, c.inp, lost);
      var cur', fs' := SeekFinds(fs, c.inp, lost);
      assert |Seek(c.inp).rest| + |lost| == |cur'| + |Encode(fs')|;
      CloseIsInside(fs');
    } else {
      CloseIsInside(fs);
    }
  }

  /** Some run delivers everything before the Close and stops behind its header. */
  lemma {:induction false} DeliverAll(c: Conn, cur: seq<byte>, fs: seq<Frame>, lost: seq<byte>)
    returns (calls: seq<(nat, nat)>)
    requires Synced(c, cur, fs, lost) && Behind(fs, lost).Some?
    ensures ReadOn(c, calls) == (Conn(0, Behind(fs, lost).value), cur + Payloads(fs))
    decreases |cur + Payloads(fs)|
  {
    hide Read, Encode, Payloads, FromClose;
    var first: seq<(nat, nat)> := [(1, 1)];
    var (d, r) := Read(c, 1, 1);
    if cur + Payloads(fs) == [] {
      calls := first;
      ReadsClose(c, fs, lost);
      assert calls[1..] == [];
      assert [] + [] == cur + Payloads(fs);
    } else {
      OneByte(c, cur, fs, lost);
      var cur1, fs1 := ReadKeeps(c, cur, fs, lost, 1, 1);
      assert r.data + cur1 + Payloads(fs1) == r.data + (cur1 + Payloads(fs1));
      var more := DeliverAll(d, cur1, fs1, lost);
      calls := first + more;
      assert calls[1..] == more;
    }
  }

  lemma ReadsClose(c: Conn, fs: seq<Frame>, lost: seq<byte>)
    requires Synced(c, [], fs, lost) && Behind(fs, lost).Some? && Payloads(fs) == []
    ensures Read(c, 1, 1) == (Conn(0, Behind(fs, lost).value), Err(Closed))
  {
    hide Seek, Encode, Payloads, FromClose;
    assert [] + Encode(fs) == Encode(fs);
    SeekReaches(fs, c.inp, lost);
  }

  /**
    Reading on past errors: all runs stay within the data payloads before the first Close if and
    only if the bytes that arrive behind its header, its payload first, do not themselves read as
    a stream with data.
    */
  lemma ReadingOnExactly(fs: seq<Frame>, inp: seq<byte>, lost: seq<byte>)
    requires AllSendable(fs) && inp + lost == Encode(fs)
    ensures (forall calls :: ReadOn(Conn(0, inp), calls).1 <= Payloads(fs)) <==> !Overruns(fs, lost)
  {
    hide ReadOn, Payloads, Encode, Speaks, FromClose, Behind;
    var c := Conn(0, inp);
    assert [] + Encode(fs) == Encode(fs) && [] + Payloads(fs) == Payloads(fs);
    if Overruns(fs, lost) {
      var b := Behind(fs, lost).value;
      var all := DeliverAll(c, [], fs, lost);
      var more := SpeaksReads(b);
      ReadOnConcat(c, all, more);
      assert |ReadOn(c, all + more).1| > |Payloads(fs)|;
      assert !(ReadOn(c, all + more).1 <= Payloads(fs));
    } else {
      forall calls
        ensures ReadOn(c, calls).1 <= Payloads(fs)
      {
        ReadOnKeeps(c, [], fs, lost, calls);
      }
    }
  }

  /** After a Close without payload and nothing behind it, reading on is harmless. */
  lemma EmptyCloseIsSafe(fs: seq<Frame>, calls: seq<(nat, nat)>)
    requires AllSendable(fs) && FromClose(fs) == Some([])
    ensures ReadOn(Conn(0, Encode(fs)), calls).1 <= Payloads(fs)
  {
    hide ReadOn, Payloads, Encode, FromClose;
    NothingSpeaksNot();
    assert Encode(fs) + [] == Encode(fs);
    assert Behind(fs, []) == Some([]);
    ReadingOnExactly(fs, Encode(fs), []);
  }

  /** A Close with a code and the reason "abcde": the next Read hands out the reason's last byte. */
  lemma CloseReasonIsRead()
    ensures var reason := [3, 0xe8, 97, 98, 99, 100, 101];
            var fs := [Frame(8, 8, Seven, reason)];
            && AllSendable(fs) && Payloads(fs) == [] && Overruns(fs, [])
            && ReadOn(Conn(0, Encode(fs)), [(1, 1), (1, 1)]) == (Conn(103, []), [101])
  {
    var reason: seq<byte> := [3, 0xe8, 97, 98, 99, 100, 101];
    var fs := [Frame(8, 8, Seven, reason)];
    assert fs[1..] == [];
    var inp: seq<byte> := [0x88, 7] + reason;
    assert Encode(fs) == inp;
    assert inp[2..] == reason && reason[2..][4..] == [101];
    assert reason[0] % 16 == 3 && reason[1] % 128 == 104 && |reason[2..]| == 5;
    assert ReadHeader(inp) == Header(8, 7, reason);
    assert ReadHeader(reason) == Header(3, 104, [101]);
    assert Seek(inp) == Stop(Closed, reason) && Seek(reason) == Data(104, [101]);
    assert FromClose(fs) == Some(reason) by { assert reason + [] == reason; }
    assert Behind(fs, []) == Some(reason);
    var c, d := Conn(0, inp), Conn(0, reason);
    var last: seq<byte> := [101];
    assert last[..1] == [101] && last[1..] == [];
    assert Read(c, 1, 1) == (d, Err(Closed));
    assert Read(d, 1, 1) == ReadBelow(Conn(104, last), 1, 1) == (Conn(103, []), Ok([101]));
    var calls: seq<(nat, nat)> := [(1, 1), (1, 1)];
    assert calls[1..] == [(1, 1)] && calls[1..][1..] == [];
    assert ReadOn(d, calls[1..]) == (Conn(103, []), [101] + []);
    assert ReadOn(c, calls) == (Conn(103, []), [] + ([101] + []));
    assert [] + ([101] + []) == last;
  }

  // ---------------------------------------------------------------- when Read crashes

  /** The stream from the header of the first non-empty data frame the loop reaches. */
  function FirstData(inp: seq<byte>): Option<seq<byte>>
    decreases |inp|
  {
    match ReadHeader(inp)
    case Short => None
    case Header(op, ln, rest) =>
      if op == 8 then None
      else if op == 9 || op == 10 then
        if ln > |rest| then None else FirstData(if ln < 0 then rest else rest[ln..])
      else if ln == 0 then FirstData(rest)
      else Some(inp)
  }

  /** A 64-bit length whose top bit is set. */
  predicate TopBit(head: seq<byte>) {
    |head| >= 10 && head[1] % 128 == 127 && head[2] >= 128
  }

  lemma NegativeIsTopBit(head: seq<byte>)
    requires ReadHeader(head).Header?
    ensures ReadHeader(head).ln < 0 <==> TopBit(head)
  {
    if head[1] % 128 == 127 {
      var r := head[2..];
      assert r[0] == head[2];
      assert Get64(r) >= TWO63 <==> r[0] >= 128 by { TopOf64(r); }
    }
  }

  lemma TopOf64(r: seq<byte>)
    requires |r| >= 8
    ensures Get64(r) >= TWO63 <==> r[0] >= 128
  {
    assert Get32(r) >= 0x8000_0000 <==> r[0] >= 128;
  }

  lemma {:induction false} FirstDataIsSought(inp: seq<byte>)
    ensures Seek(inp).Data? <==> FirstData(inp).Some?
    ensures Seek(inp).Data? ==>
              var h := ReadHeader(FirstData(inp).value);
              h.Header? && h.ln == Seek(inp).left && h.rest == Seek(inp).rest
    decreases |inp|
  {
    hide ReadHeader;
    HeaderShrinks(inp);
    match ReadHeader(inp) {
      case Short =>
      case Header(op, ln, rest) =>
        if op == 8 {
        } else if op == 9 || op == 10 {
          if ln <= |rest| { FirstDataIsSought(if ln < 0 then rest else rest[ln..]); }
        } else if ln == 0 {
          FirstDataIsSought(rest);
        }
    }
  }

  lemma HeaderShrinks(inp: seq<byte>)
    ensures ReadHeader(inp).Header? ==> |ReadHeader(inp).rest| + 2 <= |inp|
  {
  }

  /**
    A Read crashes exactly when an earlier one did, or when the first non-empty data frame it
    comes to has a 64-bit length with the top bit set; the buffer size does not matter.
    */
  lemma CrashExactly(c: Conn, size: nat, k: nat)
    ensures Read(c, size, k).1 == Err(Crash) <==>
            c.left < 0 || (c.left == 0 && FirstData(c.inp).Some? && TopBit(FirstData(c.inp).value))
  {
    hide Seek, FirstData, ReadHeader, TopBit;
    SeekStops(c.inp);
    FirstDataIsSought(c.inp);
    if c.left == 0 && Seek(c.inp).Data? { NegativeIsTopBit(FirstData(c.inp).value); }
  }

  /** The shortest such frame: every Read of it crashes. */
  lemma NegativeLengthCrashes(size: nat, k: nat)
    ensures Read(Conn(0, [0x82, 127, 0x80, 0, 0, 0, 0, 0, 0, 0]), size, k).1 == Err(Crash)
  {
    var inp: seq<byte> := [0x82, 127, 0x80, 0, 0, 0, 0, 0, 0, 0];
    var r := inp[2..];
    assert r[0] == 0x80;
    TopOf64(r);
    assert FirstData(inp) == Some(inp) && TopBit(inp);
    CrashExactly(Conn(0, inp), size, k);
  }

  // ---------------------------------------------------------------- the writer

  /** Exclusive or on the low n bits. */
  function Xor(a: nat, b: nat, n: nat): nat
    decreases n
  {
    if n == 0 then 0 else (if a % 2 == b % 2 then 0 else 1) + 2 * Xor(a / 2, b / 2, n - 1)
  }

  lemma {:induction false} XorUndone(a: nat, b: nat, n: nat)
    requires a < Pow2(n)
    ensures Xor(a, b, n) < Pow2(n)
    ensures Xor(Xor(a, b, n), b, n) == a
    decreases n
  {
    if n > 0 {
      XorUndone(a / 2, b / 2, n - 1);
      var x := Xor(a, b, n);
      assert x / 2 == Xor(a / 2, b / 2, n - 1);
      assert x % 2 == if a % 2 == b % 2 then 0 else 1;
    }
  }

  function MaskByte(a: byte, b: byte): byte {
    XorIsByte(a, b);
    Xor(a, b, 8)
  }

  lemma XorIsByte(a: byte, b: byte)
    ensures Pow2(8) == 256 && Xor(a, b, 8) < 256
  {
    LimitEight();
    XorUndone(a, b, 8);
  }

  lemma LimitEight()
    ensures Pow2(8) == 256
  {
    assert Pow2(4) == 16;
  }

  /** The body with each byte masked by the key byte at its position mod 4. */
  function Masked(p: seq<byte>, key: seq<byte>): (r: seq<byte>)
    requires |key| == 4
    ensures |r| == |p|
  {
    seq(|p|, i requires 0 <= i < |p| => MaskByte(p[i], key[i % 4]))
  }

  /** A final binary frame of n masked bytes. */
  function MaskedHead(n: nat): seq<byte>
    requires n < TWO63
  {
    [0x82] + if n < 126 then [128 + n] else if n < TWO16 then [254] + Put16(n) else [255] + Put64(n)
  }

  /** What Write puts on the connection. */
  function Written(p: seq<byte>, key: seq<byte>): seq<byte>
    requires |key| == 4 && |p| < TWO63
  {
    MaskedHead(|p|) + key + Masked(p, key)
  }

  method WriteFrame(p: seq<byte>, key: seq<byte>) returns (out: seq<byte>)
    requires |key| == 4 && |p| < TWO63
    ensures out == Written(p, key)
  {
    var h: seq<byte> := [0x82];
    if |p| < 126 {
      h := h + [128 + |p|];
    } else if |p| < TWO16 {
      h := h + ([254] + Put16(|p|));
    } else {
      h := h + ([255] + Put64(|p|));
    }
    h := h + key;
    var body: seq<byte> := [];
    for i := 0 to |p|
      invariant |body| == i && forall j :: 0 <= j < i ==> body[j] == Masked(p, key)[j]
    {
      body := body + [MaskByte(p[i], key[i % 4])];
    }
    assert body == Masked(p, key);
    out := h + body;
  }

  lemma MaskedHeadReads(n: nat, key: seq<byte>, body: seq<byte>)
    requires |key| == 4 && n < TWO63
    ensures ReadHeader(MaskedHead(n) + (key + body)) == Header(2, n, body)
  {
    hide Put16, Put64, Get16, Get64;
    var tail := key + body;
    var w := MaskedHead(n) + tail;
    assert tail[4..] == body;
    if n < 126 {
      assert w[2..] == tail;
    } else if n < TWO16 {
      assert w[2..] == Put16(n) + tail;
      Get16Put16(n, tail);
      assert w[2..][2..] == tail;
    } else {
      assert w[2..] == Put64(n) + tail;
      Get64Put64(n, tail);
      assert w[2..][8..] == tail;
    }
  }

  // ---------------------------------------------------------------- what the mask is

  /** Bit j of the masked number is set exactly when one of the two operands has it. */
  lemma {:induction false} XorBit(a: nat, b: nat, n: nat, j: nat)
    requires j < n
    ensures Bit(Xor(a, b, n), j) <==> Bit(a, j) != Bit(b, j)
    decreases n
  {
    var x := Xor(a, b, n);
    assert x % 2 == (if a % 2 == b % 2 then 0 else 1) && x / 2 == Xor(a / 2, b / 2, n - 1);
    if j > 0 { XorBit(a / 2, b / 2, n - 1, j - 1); }
  }

  /** b is p masked as section 5.3 of RFC 6455 asks: octet i with the bits of octet i mod 4 of the key flipped. */
  ghost predicate MaskedBy(b: seq<byte>, p: seq<byte>, key: seq<byte>)
    requires |key| == 4
  {
    && |b| == |p|
    && forall i, j :: 0 <= i < |p| && 0 <= j < 8 ==> (Bit(b[i], j) <==> Bit(p[i], j) != Bit(key[i % 4], j))
  }

  lemma MaskedIsMasked(p: seq<byte>, key: seq<byte>)
    requires |key| == 4
    ensures MaskedBy(Masked(p, key), p, key)
  {
    forall i, j | 0 <= i < |p| && 0 <= j < 8
      ensures Bit(Masked(p, key)[i], j) <==> Bit(p[i], j) != Bit(key[i % 4], j)
    {
      XorBit(p[i], key[i % 4], 8, j);
    }
  }

  /** A body read against the key has one meaning. */
  lemma UnmaskedOnce(b: seq<byte>, p: seq<byte>, q: seq<byte>, key: seq<byte>)
    requires |key| == 4 && MaskedBy(b, p, key) && MaskedBy(b, q, key)
    ensures p == q
  {
    LimitEight();
    forall i | 0 <= i < |p|
      ensures p[i] == q[i]
    {
      assert forall j :: 0 <= j < 8 ==> (Bit(b[i], j) <==> Bit(p[i], j) != Bit(key[i % 4], j));
      assert forall j :: 0 <= j < 8 ==> (Bit(b[i], j) <==> Bit(q[i], j) != Bit(key[i % 4], j));
      BitsDecide(p[i], q[i], 8);
    }
  }

  /**
    A receiver finds one final binary frame of the right length, masked by that key: flipping the
    key's bits in what follows gives p back, and nothing else.
    */
  lemma WrittenIsRead(p: seq<byte>, key: seq<byte>, more: seq<byte>)
    requires |key| == 4 && |p| < TWO63
    ensures var w := Written(p, key) + more;
            var h := ReadHeader(w);
            && w[0] == 0x82 && w[1] >= 128
            && h.Header? && h.op == 2 && h.ln == |p| && |h.rest| == |p| + |more| && h.rest[|p|..] == more
            && |w| - |h.rest| >= 6 && w[|w| - |h.rest| - 4..|w| - |h.rest|] == key
            && forall q :: MaskedBy(h.rest[..|p|], q, key) <==> q == p
  {
    hide Masked, ReadHeader, MaskedBy;
    var m := Masked(p, key);
    var body := m + more;
    var w := Written(p, key) + more;
    assert w == MaskedHead(|p|) + (key + body);
    MaskedHeadReads(|p|, key, body);
    assert body[..|p|] == m && body[|p|..] == more;
    assert w[|MaskedHead(|p|)|..] == key + body;
    var n := |w| - |body|;
    assert w[n - 4..n] == (MaskedHead(|p|) + key)[n - 4..n] == key;
    MaskedIsMasked(p, key);
    forall q | MaskedBy(m, q, key)
      ensures q == p
    {
      UnmaskedOnce(m, p, q, key);
    }
  }

  /** The bytes of a written frame: final and binary, the shortest length form, the key, the masked body. */
  lemma WrittenBytes(p: seq<byte>, key: seq<byte>)
    requires |key| == 4 && |p| < TWO63
    ensures var n := |p|;
            Written(p, key) ==
            [0x82] + (if n < 126 then [128 + n]
                      else if n < 0x1_0000 then [254, n / 256, n % 256]
                      else [255] + Put64(n)) + key + Masked(p, key)
  {
    hide Put64, Masked;
  }
}
