/** dpirelay's flowRecorder: a budgeted log of the first bytes of a flow, written to disk once. */
module FlowRecorder {
  import opened Bytes

  datatype Record = Record(dir: byte, data: seq<byte>)

  const MAGIC: seq<byte> := [71, 68, 80, 73]

  function Header(proto: byte, port: int): (h: seq<byte>)
    ensures |h| == 7
  {
    MAGIC + [proto] + Put16(port)
  }

  function EncodeRecord(r: Record): seq<byte> { [r.dir] + Put16(|r.data|) + r.data }

  function Encode(rs: seq<Record>): seq<byte> {
    if rs == [] then [] else EncodeRecord(rs[0]) + Encode(rs[1..])
  }

  /** Reading the records back; None when the bytes end inside one. */
  function Decode(b: seq<byte>): Option<seq<Record>> {
    if b == [] then Some([])
    else if |b| < 3 || |b| < 3 + Get16(b[1..]) then None
    else
      var n := Get16(b[1..]);
      match Decode(b[3 + n..])
      case None => None
      case Some(rs) => Some([Record(b[0], b[3..3 + n])] + rs)
  }

  // ---------------------------------------------------------------- the recorder

  datatype State = State(buf: seq<byte>, budget: int, records: int, maxRec: int, written: bool, file: Option<seq<byte>>)

  function New(proto: byte, port: int, budget: int, maxRec: int): State {
    State(Header(proto, port), budget, 0, maxRec, false, None)
  }

  /** flushLocked; diskOk is whether both the write and the rename succeed. */
  function Flush(s: State, diskOk: bool): State {
    if s.written then s else s.(written := true, file := if diskOk then Some(s.buf) else s.file)
  }

  /** The part of a chunk that fits the budget and a 16-bit length. */
  function Clip(p: seq<byte>, budget: int): (q: seq<byte>)
    requires budget > 0
    ensures q <= p && |q| <= budget && |q| <= 65535
    ensures q == p || |q| == budget || |q| == 65535
  {
    var p1 := if |p| > budget then p[..budget] else p;
    if |p1| > 65535 then p1[..65535] else p1
  }

  function Add(s: State, dir: byte, p: seq<byte>, diskOk: bool): State {
    if s.written || s.budget <= 0 || s.records >= s.maxRec || |p| == 0 then s
    else
      var q := Clip(p, s.budget);
      var s' := s.(buf := s.buf + EncodeRecord(Record(dir, q)), budget := s.budget - |q|, records := s.records + 1);
      if s'.budget <= 0 || s'.records >= s'.maxRec then Flush(s', diskOk) else s'
  }

  class Recorder {
    var buf: seq<byte>
    var budget: int
    var records: int
    const maxRec: int
    var file: Option<seq<byte>>
    var written: bool

    constructor (proto: byte, port: int, budget: int, maxRec: int)
      ensures View() == New(proto, port, budget, maxRec)
    {
      this.budget, this.maxRec := budget, maxRec;
      records, written, file := 0, false, None;
      buf := MAGIC + [proto] + Put16(port);
    }

    ghost function View(): State
      reads this
    {
      State(buf, budget, records, maxRec, written, file)
    }

    method AddChunk(dir: byte, p0: seq<byte>, diskOk: bool)
      modifies this
      ensures View() == Add(old(View()), dir, p0, diskOk)
    {
      if written || budget <= 0 || records >= maxRec || |p0| == 0 { return; }
      var p := p0;
      if |p| > budget { p := p[..budget]; }
      if |p| > 65535 { p := p[..65535]; }
      buf := buf + [dir] + Put16(|p|) + p;
      assert buf == old(buf) + EncodeRecord(Record(dir, p));
      budget := budget - |p|;
      records := records + 1;
      if budget <= 0 || records >= maxRec { FlushOnce(diskOk); }
    }

    method FlushOnce(diskOk: bool)
      modifies this`written, this`file
      ensures View() == Flush(old(View()), diskOk)
    {
      if written { return; }
      written := true;
      if diskOk { file := Some(buf); }
    }
  }

  // ---------------------------------------------------------------- runs

  datatype Op = AddOp(dir: byte, p: seq<byte>, diskOk: bool) | FlushOp(diskOk: bool)

  function Step(s: State, o: Op): State {
    match o case AddOp(dir, p, ok) => Add(s, dir, p, ok) case FlushOp(ok) => Flush(s, ok)
  }

  function Run(s: State, ops: seq<Op>): State {
    if ops == [] then s else Step(Run(s, ops[..|ops| - 1]), ops[|ops| - 1])
  }

  /** The non-empty chunks offered before the first explicit flush. */
  function Offered(ops: seq<Op>): seq<Record> {
    if ops == [] then []
    else
      var before, last := Offered(ops[..|ops| - 1]), ops[|ops| - 1];
      if last.AddOp? && last.p != [] && !Flushed(ops[..|ops| - 1]) then before + [Record(last.dir, last.p)]
      else before
  }

  predicate Flushed(ops: seq<Op>) { exists i :: 0 <= i < |ops| && ops[i].FlushOp? }

  /** What a log with this budget and record limit should keep of the chunks offered. */
  function Kept(chunks: seq<Record>, budget: int, limit: int): seq<Record>
    decreases |chunks|
  {
    if chunks == [] || budget <= 0 || limit <= 0 then []
    else
      var q := Clip(chunks[0].data, budget);
      [Record(chunks[0].dir, q)] + Kept(chunks[1..], budget - |q|, limit - 1)
  }

  function Total(rs: seq<Record>): nat {
    if rs == [] then 0 else |rs[0].data| + Total(rs[1..])
  }

  // ---------------------------------------------------------------- facts about Kept

  lemma {:induction false} EncodeSnoc(rs: seq<Record>, r: Record)
    ensures Encode(rs + [r]) == Encode(rs) + EncodeRecord(r)
    ensures Total(rs + [r]) == Total(rs) + |r.data|
  {
    hide EncodeRecord;
    if rs == [] {
      assert rs + [r] == [r] && [r][1..] == [];
      assert Encode([r]) == EncodeRecord(r) + [];
    } else {
      assert (rs + [r])[1..] == rs[1..] + [r];
      EncodeSnoc(rs[1..], r);
    }
  }

  lemma KeptUnfold(chunks: seq<Record>, budget: int, limit: int)
    ensures Kept(chunks, budget, limit)
            == if chunks == [] || budget <= 0 || limit <= 0 then []
               else [Record(chunks[0].dir, Clip(chunks[0].data, budget))]
                    + Kept(chunks[1..], budget - |Clip(chunks[0].data, budget)|, limit - 1)
  {
  }

  /** One more chunk adds one clipped record while the log is open, and nothing after. */
  lemma {:induction false} KeptSnoc(chunks: seq<Record>, x: Record, budget: int, limit: int)
    ensures var k := Kept(chunks, budget, limit);
            var left := budget - Total(k);
            && |k| <= |chunks|
            && (left > 0 && |k| < limit ==> |k| == |chunks|)
            && Kept(chunks + [x], budget, limit)
               == if left > 0 && |k| < limit then k + [Record(x.dir, Clip(x.data, left))] else k
    decreases |chunks|
  {
    hide Kept, Clip;
    KeptUnfold(chunks, budget, limit);
    KeptUnfold(chunks + [x], budget, limit);
    if budget > 0 && limit > 0 {
      if chunks == [] {
        assert chunks + [x] == [x] && [x][1..] == [];
        KeptUnfold([], budget - |Clip(x.data, budget)|, limit - 1);
      } else {
        var q := Clip(chunks[0].data, budget);
        assert (chunks + [x])[1..] == chunks[1..] + [x] && (chunks + [x])[0] == chunks[0];
        KeptSnoc(chunks[1..], x, budget - |q|, limit - 1);
        var k, k1 := Kept(chunks, budget, limit), Kept(chunks[1..], budget - |q|, limit - 1);
        assert k[1..] == k1;
      }
    }
  }

  /** Kept records are prefixes, in order, of the first chunks; bytes and records stay within their limits. */
  lemma {:induction false} KeptMeans(chunks: seq<Record>, budget: int, limit: int)
    requires forall i :: 0 <= i < |chunks| ==> chunks[i].data != []
    ensures var k := Kept(chunks, budget, limit);
            && |k| <= |chunks| && (|k| <= limit || |k| == 0)
            && (forall i :: 0 <= i < |k| ==>
                  k[i].dir == chunks[i].dir && k[i].data <= chunks[i].data && 0 < |k[i].data| <= 65535)
            && (budget >= 0 ==> Total(k) <= budget)
            && (|k| < |chunks| ==> budget <= Total(k) || limit <= |k|)
    decreases |chunks|
  {
    hide Kept, Clip;
    KeptUnfold(chunks, budget, limit);
    if chunks != [] && budget > 0 && limit > 0 {
      var q := Clip(chunks[0].data, budget);
      KeptMeans(chunks[1..], budget - |q|, limit - 1);
      var k, k1 := Kept(chunks, budget, limit), Kept(chunks[1..], budget - |q|, limit - 1);
      assert k == [Record(chunks[0].dir, q)] + k1 && k[1..] == k1;
    }
  }

  /** One record at the front is read whole. */
  lemma DecodeFront(r: Record, more: seq<byte>)
    requires |r.data| <= 65535
    ensures Decode(EncodeRecord(r) + more) == match Decode(more) case None => None case Some(rs) => Some([r] + rs)
  {
    hide Put16, Get16;
    var n := |r.data|;
    var b := EncodeRecord(r) + more;
    assert b[1..] == Put16(n) + (r.data + more);
    Get16Put16(n, r.data + more);
    assert b[3..3 + n] == r.data && b[3 + n..] == more;
  }

  lemma {:induction false} DecodeEncode(rs: seq<Record>)
    requires forall i :: 0 <= i < |rs| ==> |rs[i].data| <= 65535
    ensures Decode(Encode(rs)) == Some(rs)
    decreases |rs|
  {
    hide EncodeRecord;
    if rs != [] {
      DecodeEncode(rs[1..]);
      hide Decode;
      DecodeFront(rs[0], Encode(rs[1..]));
      assert [rs[0]] + rs[1..] == rs;
    }
  }

  // ---------------------------------------------------------------- every run

  /** The recorder holds exactly the log of what was offered before the first flush. */
  ghost predicate Inv(s: State, proto: byte, port: int, budget: int, limit: int, ops: seq<Op>) {
    var k := Kept(Offered(ops), budget, limit);
    && s.maxRec == limit
    && s.buf == Header(proto, port) + Encode(k)
    && s.budget == budget - Total(k) && s.records == |k|
    && (Flushed(ops) ==> s.written)
    && (s.written ==> Flushed(ops) || s.budget <= 0 || s.records >= limit)
    && (s.file.Some? ==> s.written && s.file == Some(s.buf))
  }

  lemma FlushedSnoc(ops: seq<Op>, o: Op)
    ensures Flushed(ops + [o]) <==> Flushed(ops) || o.FlushOp?
  {
    var all := ops + [o];
    if Flushed(ops) {
      var i :| 0 <= i < |ops| && ops[i].FlushOp?;
      assert all[i].FlushOp?;
    }
    if o.FlushOp? { assert all[|ops|].FlushOp?; }
  }

  lemma StepKeeps(s: State, proto: byte, port: int, budget: int, limit: int, ops: seq<Op>, o: Op)
    requires Inv(s, proto, port, budget, limit, ops)
    ensures Inv(Step(s, o), proto, port, budget, limit, ops + [o])
  {
    hide Encode, EncodeRecord, Total, Kept, Header, Flushed;
    var all := ops + [o];
    assert all[..|ops|] == ops;
    FlushedSnoc(ops, o);
    if o.AddOp? && o.p != [] && !Flushed(ops) {
      var x := Record(o.dir, o.p);
      var k := Kept(Offered(ops), budget, limit);
      KeptSnoc(Offered(ops), x, budget, limit);
      assert Offered(all) == Offered(ops) + [x];
      if s.budget > 0 && s.records < limit {
        var q := Record(o.dir, Clip(o.p, s.budget));
        EncodeSnoc(k, q);
        assert Header(proto, port) + Encode(k) + EncodeRecord(q) == Header(proto, port) + (Encode(k) + EncodeRecord(q));
      }
    } else {
      assert Offered(all) == Offered(ops);
    }
  }

  lemma {:induction false} RunKeeps(proto: byte, port: int, budget: int, limit: int, ops: seq<Op>)
    ensures Inv(Run(New(proto, port, budget, limit), ops), proto, port, budget, limit, ops)
  {
    hide Step, Kept;
    if ops == [] {
      assert Kept(Offered(ops), budget, limit) == [] by { KeptNothing(budget, limit); }
      assert Header(proto, port) + Encode([]) == Header(proto, port);
    } else {
      var init, last := ops[..|ops| - 1], ops[|ops| - 1];
      RunKeeps(proto, port, budget, limit, init);
      StepKeeps(Run(New(proto, port, budget, limit), init), proto, port, budget, limit, init, last);
      assert ops == init + [last];
    }
  }

  lemma KeptNothing(budget: int, limit: int)
    ensures Kept([], budget, limit) == []
  {
  }

  lemma {:induction false} OfferedNonEmpty(ops: seq<Op>)
    ensures forall i :: 0 <= i < |Offered(ops)| ==> Offered(ops)[i].data != []
  {
    if ops != [] { OfferedNonEmpty(ops[..|ops| - 1]); }
  }

  /**
    After any calls the buffer is the header and records that decode to prefixes, in order, of the
    first chunks offered; recorded bytes plus remaining budget is the initial budget; and a file,
    once there, is the buffer.
    */
  lemma LogIsFaithful(proto: byte, port: int, budget: int, limit: int, ops: seq<Op>)
    ensures var s := Run(New(proto, port, budget, limit), ops);
            var k := Kept(Offered(ops), budget, limit);
            && |s.buf| >= 7 && s.buf[..7] == Header(proto, port) && Decode(s.buf[7..]) == Some(k)
            && Total(k) + s.budget == budget
            && |k| == s.records && (s.records <= limit || s.records == 0)
            && |k| <= |Offered(ops)|
            && (forall i :: 0 <= i < |k| ==> k[i].dir == Offered(ops)[i].dir && k[i].data <= Offered(ops)[i].data)
            && (s.file.Some? ==> s.file.value == s.buf)
  {
    hide Run, Kept, Encode, Decode, Total, Header, Offered, Flushed;
    RunKeeps(proto, port, budget, limit, ops);
    OfferedNonEmpty(ops);
    KeptMeans(Offered(ops), budget, limit);
    var k := Kept(Offered(ops), budget, limit);
    DecodeEncode(k);
    var s := Run(New(proto, port, budget, limit), ops);
    assert s.buf[7..] == Encode(k);
  }

  /** Once written nothing changes any more: not the buffer, not the file. */
  lemma {:induction false} WrittenIsFinal(s: State, ops: seq<Op>)
    requires s.written
    ensures Run(s, ops) == s
  {
    if ops != [] { WrittenIsFinal(s, ops[..|ops| - 1]); }
  }

  // ---------------------------------------------------------------- when the file is written

  /** The log has taken something and met one of its limits. */
  predicate Full(k: seq<Record>, budget: int, limit: int) {
    k != [] && (Total(k) >= budget || |k| >= limit)
  }

  /** How the disk answered the call that closed the log: the first flush, or the chunk that filled it. */
  function ClosedBy(ops: seq<Op>, budget: int, limit: int): Option<bool> {
    if ops == [] then None
    else
      var before, last := ClosedBy(ops[..|ops| - 1], budget, limit), ops[|ops| - 1];
      if before.Some? then before
      else if last.FlushOp? then Some(last.diskOk)
      else if Full(Kept(Offered(ops), budget, limit), budget, limit) then Some(last.diskOk)
      else None
  }

  lemma ClosedStep(s: State, proto: byte, port: int, budget: int, limit: int, ops: seq<Op>, o: Op)
    requires Inv(s, proto, port, budget, limit, ops)
    requires s.written == ClosedBy(ops, budget, limit).Some?
    requires s.file == if ClosedBy(ops, budget, limit) == Some(true) then Some(s.buf) else None
    requires !s.written ==> !Full(Kept(Offered(ops), budget, limit), budget, limit)
    ensures var s', c := Step(s, o), ClosedBy(ops + [o], budget, limit);
            && s'.written == c.Some?
            && s'.file == (if c == Some(true) then Some(s'.buf) else None)
            && (!s'.written ==> !Full(Kept(Offered(ops + [o]), budget, limit), budget, limit))
  {
    hide Encode, EncodeRecord, Total, Kept, Header;
    var all := ops + [o];
    assert all[..|ops|] == ops;
    StepKeeps(s, proto, port, budget, limit, ops, o);
    FlushedSnoc(ops, o);
  }

  lemma {:induction false} ClosedAlong(proto: byte, port: int, budget: int, limit: int, ops: seq<Op>)
    ensures var s, c := Run(New(proto, port, budget, limit), ops), ClosedBy(ops, budget, limit);
            && s.written == c.Some? && s.file == (if c == Some(true) then Some(s.buf) else None)
            && (!s.written ==> !Full(Kept(Offered(ops), budget, limit), budget, limit))
  {
    hide Step, Kept, Full;
    if ops == [] {
      assert !Full(Kept([], budget, limit), budget, limit) by { NothingFull(budget, limit); }
    } else {
      var init, last := ops[..|ops| - 1], ops[|ops| - 1];
      ClosedAlong(proto, port, budget, limit, init);
      RunKeeps(proto, port, budget, limit, init);
      ClosedStep(Run(New(proto, port, budget, limit), init), proto, port, budget, limit, init, last);
      assert ops == init + [last];
    }
  }

  lemma NothingFull(budget: int, limit: int)
    ensures !Full(Kept([], budget, limit), budget, limit)
  {
  }

  /**
    In every run the recorder stops at the first flush or at the chunk that uses up the budget or
    the records, whichever comes first; the file is there if and only if the disk took it then, and
    it is the whole buffer.
    */
  lemma WrittenExactly(proto: byte, port: int, budget: int, limit: int, ops: seq<Op>)
    ensures var s := Run(New(proto, port, budget, limit), ops);
            && (s.written <==> ClosedBy(ops, budget, limit).Some?)
            && s.file == if ClosedBy(ops, budget, limit) == Some(true) then Some(s.buf) else None
  {
    ClosedAlong(proto, port, budget, limit, ops);
  }

  /** The header: "GDPI", the protocol and the port. */
  lemma HeaderBytes(proto: byte, port: int)
    requires 0 <= port < TWO16
    ensures Header(proto, port) == [71, 68, 80, 73, proto, port / 256, port % 256]
  {
  }

  /** A record: direction, length, bytes. */
  lemma RecordBytes(r: Record)
    requires |r.data| <= 65535
    ensures EncodeRecord(r) == [r.dir, |r.data| / 256, |r.data| % 256] + r.data
  {
  }
}
