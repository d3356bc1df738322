/** The injector handshake of the SSH transport: HTTP answers stripped from the front of a stream. */
module Handshake {
  import opened Bytes

  const CR: byte := 13
  const LF: byte := 10
  const HTTP: seq<byte> := [72, 84, 84, 80, 47]

  // ---------------------------------------------------------------- lines and blocks

  /** bufio's ReadString('\n'): the first line with its LF, or None when the stream has none. */
  function TakeLine(b: seq<byte>): (r: Option<(seq<byte>, seq<byte>)>)
    ensures r.Some? ==> b == r.value.0 + r.value.1 && IsLine(r.value.0)
  {
    if b == [] then None
    else if b[0] == LF then Some(([LF], b[1..]))
    else
      match TakeLine(b[1..])
      case None => None
      case Some((line, rest)) => LineCons(b[0], line); Some(([b[0]] + line, rest))
  }

  /** Exactly one LF, at the end. */
  ghost predicate IsLine(l: seq<byte>) {
    l != [] && l[|l| - 1] == LF && forall i :: 0 <= i < |l| - 1 ==> l[i] != LF
  }

  lemma LineCons(x: byte, l: seq<byte>)
    requires x != LF && IsLine(l)
    ensures IsLine([x] + l)
  {
  }

  predicate IsBlank(l: seq<byte>) { l == [CR, LF] || l == [LF] }

  /** The header loop: everything up to and including the first blank line. */
  function SkipHeaders(b: seq<byte>): (r: Option<seq<byte>>)
    ensures r.Some? ==> |r.value| < |b|
    decreases |b|
  {
    match TakeLine(b)
    case None => None
    case Some((line, rest)) => if IsBlank(line) then Some(rest) else SkipHeaders(rest)
  }

  datatype Block = Block(status: seq<byte>, headers: seq<seq<byte>>, blank: seq<byte>)

  /** A complete HTTP header block. */
  ghost predicate Complete(k: Block) {
    && IsLine(k.status) && |k.status| >= 5 && k.status[..5] == HTTP
    && (forall i :: 0 <= i < |k.headers| ==> IsLine(k.headers[i]) && !IsBlank(k.headers[i]))
    && IsBlank(k.blank)
  }

  function BlockBytes(k: Block): seq<byte> { k.status + Join(k.headers) + k.blank }

  function AllBytes(ks: seq<Block>): seq<byte> {
    if ks == [] then [] else BlockBytes(ks[0]) + AllBytes(ks[1..])
  }

  // ---------------------------------------------------------------- the handshake

  /** How Peek(1) ends when nothing is buffered. */
  datatype Wait = Arrived | TimedOut | Ended

  /**
    What the clock and the connection do in one round of the loop: whether the peek at the next
    five bytes fails, whether a deadline passes inside the status line or a header line, whether
    more is buffered after the block, and how waiting for more ends.
    */
  datatype Timing = Timing(peekFails: bool, lineFails: bool, buffered: bool, wait: Wait)

  datatype Outcome = Opened(rest: seq<byte>, upgraded: bool) | NoAnswer | CutOff | FarEndClosed

  predicate Final(code: int) { code == 101 || 200 <= code < 300 }

  /** The answer loop on a stream; code reads the status code of a status line, 0 if it has none. */
  function Answers(code: seq<byte> -> int, inp: seq<byte>, clock: nat -> Timing, i: nat): Outcome
    decreases |inp|
  {
    if |inp| < 5 || clock(i).peekFails then NoAnswer
    else if inp[..5] != HTTP then Opened(inp, false)
    else if clock(i).lineFails then CutOff
    else
      match TakeLine(inp)
      case None => CutOff
      case Some((status, r)) =>
        match SkipHeaders(r)
        case None => CutOff
        case Some(rest) =>
          if Final(code(status)) then Opened(rest, code(status) == 101)
          else if !clock(i).buffered && clock(i).wait.TimedOut? then Opened(rest, false)
          else if !clock(i).buffered && clock(i).wait.Ended? then FarEndClosed
          else Answers(code, rest, clock, i + 1)
  }

  datatype Connection = Plain(stream: seq<byte>) | Framed(stream: seq<byte>) | Refused | Lost(why: Outcome)

  function Connect(code: seq<byte> -> int, inp: seq<byte>, clock: nat -> Timing, framing: bool): Connection {
    match Answers(code, inp, clock, 0)
    case Opened(rest, upgraded) => if !framing then Plain(rest) else if upgraded then Framed(rest) else Refused
    case o => Lost(o)
  }

  method HeaderLoop(b: seq<byte>) returns (r: Option<seq<byte>>)
    ensures r == SkipHeaders(b)
  {
    var rest := b;
    while true
      invariant SkipHeaders(b) == SkipHeaders(rest)
      decreases |rest|
    {
      var l := TakeLine(rest);
      if l.None? { return None; }
      rest := l.value.1;
      if IsBlank(l.value.0) { return Some(rest); }
    }
  }

  /** handshake, after the payload is written. */
  method Shake(code: seq<byte> -> int, inp: seq<byte>, clock: nat -> Timing, framing: bool) returns (c: Connection)
    ensures c == Connect(code, inp, clock, framing)
  {
    var rest, upgraded, i := inp, false, 0;
    while true
      invariant !upgraded && Answers(code, inp, clock, 0) == Answers(code, rest, clock, i)
      decreases |rest|
    {
      if |rest| < 5 || clock(i).peekFails { return Lost(NoAnswer); }
      if rest[..5] != HTTP { break; }
      if clock(i).lineFails { return Lost(CutOff); }
      var status := TakeLine(rest);
      if status.None? { return Lost(CutOff); }
      var after := HeaderLoop(status.value.1);
      if after.None? { return Lost(CutOff); }
      rest := after.value;
      var n := code(status.value.0);
      if n == 101 { upgraded := true; }
      if Final(n) { break; }
      if !clock(i).buffered {
        if clock(i).wait.TimedOut? { break; }
        if clock(i).wait.Ended? { return Lost(FarEndClosed); }
      }
      i := i + 1;
    }
    assert Answers(code, inp, clock, 0) == Opened(rest, upgraded);
    if framing {
      if !upgraded { return Refused; }
      return Framed(rest);
    }
    return Plain(rest);
  }

  // ---------------------------------------------------------------- what is stripped

  lemma {:induction false} SkippedHeaders(b: seq<byte>) returns (headers: seq<seq<byte>>, blank: seq<byte>)
    requires SkipHeaders(b).Some?
    ensures b == Join(headers) + blank + SkipHeaders(b).value
    ensures IsBlank(blank) && forall i :: 0 <= i < |headers| ==> IsLine(headers[i]) && !IsBlank(headers[i])
    decreases |b|
  {
    var (line, rest) := TakeLine(b).value;
    if IsBlank(line) {
      headers, blank := [], line;
    } else {
      var more, bl := SkippedHeaders(rest);
      headers, blank := [line] + more, bl;
      assert headers[1..] == more;
    }
  }

  /** Only the last of these answers is a final one. */
  ghost predicate OnlyLastFinal(code: seq<byte> -> int, ks: seq<Block>) {
    forall i :: 0 <= i < |ks| - 1 ==> !Final(code(ks[i].status))
  }

  /** The stream is a run of complete blocks, only the last final, and then rest; 101 is what upgrades. */
  ghost predicate Splits(code: seq<byte> -> int, inp: seq<byte>, ks: seq<Block>, rest: seq<byte>, upgraded: bool) {
    && inp == AllBytes(ks) + rest
    && (forall j :: 0 <= j < |ks| ==> Complete(ks[j]))
    && OnlyLastFinal(code, ks)
    && (upgraded <==> ks != [] && code(ks[|ks| - 1].status) == 101)
  }

  /** Why the loop, begun in round i, stopped: a final answer, silence after the last, or no HTTP. */
  ghost predicate Stops(code: seq<byte> -> int, ks: seq<Block>, rest: seq<byte>, clock: nat -> Timing, i: nat) {
    || (ks != [] && Final(code(ks[|ks| - 1].status)))
    || (ks != [] && !clock(i + |ks| - 1).buffered && clock(i + |ks| - 1).wait.TimedOut?)
    || (|rest| >= 5 && rest[..5] != HTTP)
  }

  /** The block at the front of the stream, taken off whole. */
  lemma FirstBlock(inp: seq<byte>) returns (k: Block, rest: seq<byte>)
    requires |inp| >= 5 && inp[..5] == HTTP && TakeLine(inp).Some? && SkipHeaders(TakeLine(inp).value.1).Some?
    ensures Complete(k) && inp == BlockBytes(k) + rest
    ensures k.status == TakeLine(inp).value.0 && rest == SkipHeaders(TakeLine(inp).value.1).value
  {
    hide SkipHeaders;
    var (status, r) := TakeLine(inp).value;
    var headers, blank := SkippedHeaders(r);
    k, rest := Block(status, headers, blank), SkipHeaders(r).value;
    StatusStarts(inp, status, r);
    assert inp == status + (Join(headers) + blank + rest);
  }

  lemma SplitsCons(code: seq<byte> -> int, k: Block, inp: seq<byte>, ks: seq<Block>, rest: seq<byte>, upgraded: bool)
    requires Complete(k) && !Final(code(k.status)) && Splits(code, inp, ks, rest, upgraded)
    ensures Splits(code, BlockBytes(k) + inp, [k] + ks, rest, upgraded)
  {
    hide Complete;
    var all := [k] + ks;
    assert all[1..] == ks;
    assert AllBytes(all) + rest == BlockBytes(k) + (AllBytes(ks) + rest);
    assert forall j :: 0 <= j < |ks| ==> all[j + 1] == ks[j];
  }

  lemma SplitsNone(code: seq<byte> -> int, inp: seq<byte>)
    ensures Splits(code, inp, [], inp, false)
  {
    assert AllBytes([]) + inp == inp;
  }

  lemma SplitsOne(code: seq<byte> -> int, k: Block, rest: seq<byte>)
    requires Complete(k)
    ensures Splits(code, BlockBytes(k) + rest, [k], rest, code(k.status) == 101)
  {
    assert [k][1..] == [];
    assert AllBytes([k]) == BlockBytes(k) + [];
  }

  lemma {:induction false} Stripped(code: seq<byte> -> int, inp: seq<byte>, clock: nat -> Timing, i: nat)
    returns (ks: seq<Block>)
    requires Answers(code, inp, clock, i).Opened?
    ensures var o := Answers(code, inp, clock, i);
            Splits(code, inp, ks, o.rest, o.upgraded) && Stops(code, ks, o.rest, clock, i)
    decreases |inp|
  {
    hide SkipHeaders, TakeLine, Splits, Complete, BlockBytes;
    var o := Answers(code, inp, clock, i);
    if inp[..5] != HTTP {
      ks := [];
      SplitsNone(code, inp);
    } else {
      var k, rest := FirstBlock(inp);
      if Final(code(k.status)) || (!clock(i).buffered && clock(i).wait.TimedOut?) {
        ks := [k];
        SplitsOne(code, k, rest);
      } else {
        var more := Stripped(code, rest, clock, i + 1);
        ks := [k] + more;
        SplitsCons(code, k, rest, more, o.rest, o.upgraded);
        assert more != [] ==> ks[|ks| - 1] == more[|more| - 1];
        assert more != [] ==> i + |ks| - 1 == i + 1 + |more| - 1;
      }
    }
  }

  /** A line that starts an LF-free prefix covers it. */
  lemma StatusStarts(inp: seq<byte>, status: seq<byte>, r: seq<byte>)
    requires |inp| >= 5 && inp[..5] == HTTP && inp == status + r && IsLine(status)
    ensures |status| >= 5 && status[..5] == HTTP
  {
    assert inp[|status| - 1] == LF;
    assert forall j :: 0 <= j < 5 ==> inp[j] == HTTP[j];
    assert forall j :: 0 <= j < 5 ==> HTTP[j] != LF;
    assert status[..5] == inp[..5];
  }

  /** What the returned connection delivers is the stream without its HTTP answers, and nothing is lost. */
  lemma ConnectStrips(code: seq<byte> -> int, inp: seq<byte>, clock: nat -> Timing, framing: bool)
    returns (ks: seq<Block>)
    requires var c := Connect(code, inp, clock, framing); c.Plain? || c.Framed?
    ensures var c := Connect(code, inp, clock, framing);
            && Splits(code, inp, ks, c.stream, ks != [] && code(ks[|ks| - 1].status) == 101)
            && Stops(code, ks, c.stream, clock, 0)
            && (c.Framed? <==> framing)
            && (c.Framed? ==> ks != [] && code(ks[|ks| - 1].status) == 101)
  {
    hide Answers, Complete, AllBytes;
    ks := Stripped(code, inp, clock, 0);
  }

  // ---------------------------------------------------------------- and only that

  lemma {:induction false} LineTaken(l: seq<byte>, more: seq<byte>)
    requires IsLine(l)
    ensures TakeLine(l + more) == Some((l, more))
    decreases |l|
  {
    if l[0] == LF {
      assert |l| == 1;
      assert (l + more)[1..] == more;
      assert l == [LF];
    } else {
      assert (l + more)[1..] == l[1..] + more;
      assert IsLine(l[1..]);
      LineTaken(l[1..], more);
      assert [l[0]] + l[1..] == l;
    }
  }

  lemma {:induction false} HeadersSkipped(headers: seq<seq<byte>>, blank: seq<byte>, more: seq<byte>)
    requires IsBlank(blank) && forall i :: 0 <= i < |headers| ==> IsLine(headers[i]) && !IsBlank(headers[i])
    ensures SkipHeaders(Join(headers) + blank + more) == Some(more)
    decreases |headers|
  {
    hide TakeLine;
    var b := Join(headers) + blank + more;
    if headers == [] {
      assert b == blank + more;
      LineTaken(blank, more);
    } else {
      var rest := Join(headers[1..]) + blank + more;
      assert b == headers[0] + rest;
      LineTaken(headers[0], rest);
      HeadersSkipped(headers[1..], blank, more);
    }
  }

  /** A complete block is consumed whole. */
  lemma BlockConsumed(k: Block, tail: seq<byte>)
    requires Complete(k)
    ensures var inp := BlockBytes(k) + tail;
            && |inp| >= 5 && inp[..5] == HTTP
            && TakeLine(inp) == Some((k.status, Join(k.headers) + k.blank + tail))
            && SkipHeaders(Join(k.headers) + k.blank + tail) == Some(tail)
  {
    hide TakeLine, SkipHeaders;
    var r := Join(k.headers) + k.blank + tail;
    assert BlockBytes(k) + tail == k.status + r;
    assert (k.status + r)[..5] == k.status[..5];
    LineTaken(k.status, r);
    HeadersSkipped(k.headers, k.blank, tail);
  }

  /** No read fails, and whenever nothing is buffered more arrives. */
  ghost predicate Flowing(clock: nat -> Timing) {
    forall j :: !clock(j).peekFails && !clock(j).lineFails && (clock(j).buffered || clock(j).wait.Arrived?)
  }

  /** On a flowing stream the caller gets exactly what follows the last complete block. */
  lemma {:induction false} BlocksConsumed(code: seq<byte> -> int, ks: seq<Block>, rest: seq<byte>,
                                          clock: nat -> Timing, i: nat)
    requires forall j :: 0 <= j < |ks| ==> Complete(ks[j])
    requires OnlyLastFinal(code, ks) && Flowing(clock)
    requires (ks != [] && Final(code(ks[|ks| - 1].status))) || (|rest| >= 5 && rest[..5] != HTTP)
    ensures Answers(code, AllBytes(ks) + rest, clock, i)
            == Opened(rest, ks != [] && code(ks[|ks| - 1].status) == 101)
    decreases |ks|
  {
    hide TakeLine, SkipHeaders, Complete, BlockBytes, IsLine;
    var inp := AllBytes(ks) + rest;
    assert !clock(i).peekFails && !clock(i).lineFails && (clock(i).buffered || clock(i).wait.Arrived?);
    if ks == [] {
      assert inp == rest;
    } else {
      var tail := AllBytes(ks[1..]) + rest;
      assert inp == BlockBytes(ks[0]) + tail;
      BlockConsumed(ks[0], tail);
      if |ks| == 1 && Final(code(ks[0].status)) {
        assert tail == rest;
      } else {
        BlocksConsumed(code, ks[1..], rest, clock, i + 1);
      }
    }
  }

  /** A line of the form b"...\n" that is not just an end of line. */
  ghost predicate HeaderLine(l: seq<byte>) {
    && l != [] && l[|l| - 1] == 10 && (forall i :: 0 <= i < |l| - 1 ==> l[i] != 10)
    && l != [10] && l != [13, 10]
  }

  /**
    One answer: "HTTP/", the rest of its status line, headers and an empty line.  With 101 or a code
    from 200 to 299 the stream behind it is handed over at once; with any other it is handed over
    if nothing follows in time, given up if the connection ends, and else the loop goes on.
    */
  lemma AnswerTaken(code: seq<byte> -> int, line: seq<byte>, headers: seq<seq<byte>>, blank: seq<byte>, tail: seq<byte>,
                    clock: nat -> Timing, i: nat)
    requires HeaderLine(line) && [72, 84, 84, 80, 47] <= line
    requires (forall j :: 0 <= j < |headers| ==> HeaderLine(headers[j])) && (blank == [10] || blank == [13, 10])
    requires !clock(i).peekFails && !clock(i).lineFails
    ensures var n := code(line);
            Answers(code, line + Join(headers) + blank + tail, clock, i) ==
            if n == 101 then Opened(tail, true)
            else if 200 <= n && n <= 299 then Opened(tail, false)
            else if !clock(i).buffered && clock(i).wait.TimedOut? then Opened(tail, false)
            else if !clock(i).buffered && clock(i).wait.Ended? then FarEndClosed
            else Answers(code, tail, clock, i + 1)
  {
    var k := Block(line, headers, blank);
    assert HTTP == [72, 84, 84, 80, 47] && line[..5] == HTTP;
    assert BlockBytes(k) + tail == line + Join(headers) + blank + tail;
    assert Complete(k);
    hide TakeLine, SkipHeaders;
    BlockConsumed(k, tail);
  }

  /** Anything else at the front is handed over untouched, and too little of it is no answer. */
  lemma NothingTaken(code: seq<byte> -> int, inp: seq<byte>, clock: nat -> Timing, i: nat)
    requires !([72, 84, 84, 80, 47] <= inp)
    ensures Answers(code, inp, clock, i) == if |inp| < 5 || clock(i).peekFails then NoAnswer else Opened(inp, false)
  {
    assert HTTP <= inp <==> |inp| >= 5 && inp[..5] == HTTP;
  }
}
