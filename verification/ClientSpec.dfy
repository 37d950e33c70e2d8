// The client's receiving side as an abstract machine: the bytes accumulated, the request they answer, and the record
// of completion callbacks.
module ClientSpec {
  import opened Bytes
  import opened Crc
  import opened Framing
  import opened Payload
  import opened Codec

  const MAX_REGS := 128

  // What a registered request remembers: its encoded frame, and the unit and address it asks for.
  datatype Request = Request(unitId: bv8, addr: bv16, frame: Bytes)

  // A completion: registers, or a failure (a register count of -1).
  datatype Result = Result(unitId: bv8, addr: bv16, regs: Option<seq<bv16>>)

  // Once `overrun` is set, the PDU array has been accessed out of range and the rest of the state means nothing.
  datatype Cli = Cli(recv: Bytes, current: Option<Request>, rxCount: bv32, done: seq<Result>, overrun: bool)

  // The completion for a response frame.
  function Complete(req: Request, frame: Bytes): Result
    requires |req.frame| >= 2 && |frame| >= 5
  {
    Result(req.unitId, req.addr,
           match Decode(Rtu, frame)
           case None => None
           case Some((unitId, pdu)) =>
             if unitId != req.unitId then None
             else match ParseReadPdu(pdu, req.frame[1], MAX_REGS)
               case Registers(regs) => Some(regs)
               case ReadFailed(_) => None)
  }

  ghost predicate Ok(c: Cli) {
    c.current.Some? ==> |c.current.value.frame| >= 2
  }

  // One reaction to the bytes accumulated so far. A response that was acted upon stays in the buffer. Nothing compares
  // its PDU with the array that it is copied to.
  function Receive(c: Cli): Cli
    requires Ok(c) && c.current.Some?
  {
    match ParseResponse(c.recv)
    case NeedMore => c
    case FrameError => c.(recv := [])
    case Ready(n) =>
      var c' := c.(recv := c.recv[..n], rxCount := c.rxCount + 1);
      if n > MAX_ADU then c'.(overrun := true) else c'.(done := c.done + [Complete(c.current.value, c.recv[..n])])
  }

  // Bytes taken in, by either way.
  function Take(cap: nat, c: Cli, data: Bytes): Cli
    requires Ok(c)
  {
    if data == [] || c.current.None? then c
    else if |c.recv| + |data| > cap then c.(recv := [])
    else Receive(c.(recv := c.recv + data))
  }

  // A whole list of chunks.
  function TakeAll(cap: nat, c: Cli, chunks: seq<Bytes>): (r: Cli)
    requires Ok(c)
    ensures Ok(r)
  {
    if chunks == [] then c else Take(cap, TakeAll(cap, c, chunks[..|chunks| - 1]), chunks[|chunks| - 1])
  }

  // ---------------------------------------------------------------------------------------------------------------

  lemma WholeResponseNonEmpty(f: Bytes)
    requires WholeResponse(f)
    ensures |f| >= 5
  {
  }

  // The client after completing its request with the response f.
  function Completed(c: Cli, f: Bytes): Cli
    requires Ok(c) && c.current.Some? && |f| >= 5
  {
    c.(recv := f, rxCount := c.rxCount + 1, done := c.done + [Complete(c.current.value, f)])
  }

  // Bytes of a response that is not complete yet: they are kept, or they complete it, whatever follows in the same
  // piece.
  lemma ResponseBytes(cap: nat, c: Cli, f: Bytes, data: Bytes)
    requires Ok(c) && c.current.Some? && WholeResponse(f) && |f| <= MAX_ADU
    requires data != [] && |c.recv + data| <= cap
    ensures |f| >= 5
    ensures c.recv + data < f ==> Take(cap, c, data) == c.(recv := c.recv + data)
    ensures f <= c.recv + data ==> Take(cap, c, data) == Completed(c, f)
  {
    hide ParseResponse, Complete, WholeResponse;
    WholeResponseNonEmpty(f);
    ResponsePrefixCorrect(f, c.recv + data);
    if f <= c.recv + data {
      assert (c.recv + data)[..|f|] == f;
    }
  }

  // The responses that make the client access its PDU array out of range.
  lemma OverrunIff(cap: nat, c: Cli, f: Bytes, data: Bytes)
    requires Ok(c) && c.current.Some? && WholeResponse(f) && |c.recv + data| <= cap
    requires data != [] && f <= c.recv + data && !c.overrun
    ensures |f| >= 5
    ensures Take(cap, c, data).overrun <==> |f| > MAX_ADU
    ensures |f| > MAX_ADU <==> IsRead(f[1]) && ByteVal(f[2]) > 251
  {
    ResponsePrefixCorrect(f, c.recv + data);
    hide Complete, ByteVal, IsRead, IsWrite, IsException, ValidFrame;
  }

  // In whatever chunks a response arrives, nothing happens before its last byte, and then exactly one completion does.
  lemma {:induction false} ResponseInChunks(cap: nat, c: Cli, f: Bytes, chunks: seq<Bytes>)
    requires Ok(c) && c.current.Some? && c.recv == [] && WholeResponse(f) && |f| <= cap && |f| <= MAX_ADU
    ensures |f| >= 5
    ensures Flatten(chunks) < f ==> TakeAll(cap, c, chunks) == c.(recv := Flatten(chunks))
    ensures Flatten(chunks) == f ==> TakeAll(cap, c, chunks) == Completed(c, f)
  {
    hide Complete, WholeResponse, Receive;
    WholeResponseNonEmpty(f);
    if chunks != [] {
      var before, chunk := chunks[..|chunks| - 1], chunks[|chunks| - 1];
      ResponseInChunks(cap, c, f, before);
      assert chunk == [] ==> Flatten(chunks) == Flatten(before);
      if chunk != [] && Flatten(chunks) <= f {
        assert |Flatten(before)| < |f| && Flatten(before) == f[..|Flatten(before)|];
        ResponseBytes(cap, c.(recv := Flatten(before)), f, chunk);
      }
    }
  }

  // The completed response stays in the buffer: any further bytes that fit make the same completion fire again.
  lemma CompletionRepeats(cap: nat, c: Cli, f: Bytes, data: Bytes)
    requires Ok(c) && c.current.Some? && c.recv == f && WholeResponse(f) && |f| + |data| <= cap && |f| <= MAX_ADU
    ensures |f| >= 5
    ensures Take(cap, c, data) == c <==> data == []
    ensures data != [] ==> Take(cap, c, data) == Completed(c, f)
  {
    hide ParseResponse, Complete, WholeResponse;
    WholeResponseNonEmpty(f);
    ResponsePrefixCorrect(f, f + data);
    assert (f + data)[..|f|] == f;
    if data != [] {
      assert |Take(cap, c, data).done| == |c.done| + 1;
    }
  }

  function NonEmpty(chunks: seq<Bytes>): nat {
    if chunks == [] then 0 else NonEmpty(chunks[..|chunks| - 1]) + if chunks[|chunks| - 1] == [] then 0 else 1
  }

  function Repeated(r: Result, n: nat): seq<Result> {
    seq(n, _ => r)
  }

  // Between these two states the response f has completed the request n times.
  ghost predicate CompletedTimes(c: Cli, c': Cli, f: Bytes, n: nat)
    requires Ok(c) && c.current.Some? && |f| >= 5
  {
    c' == c.(recv := f, rxCount := c'.rxCount, done := c.done + Repeated(Complete(c.current.value, f), n))
  }

  lemma OnceMore(c: Cli, c': Cli, f: Bytes, n: nat)
    requires Ok(c) && c.current.Some? && |f| >= 5 && CompletedTimes(c, c', f, n)
    ensures CompletedTimes(c, Completed(c', f), f, n + 1)
  {
    hide Complete;
  }

  lemma CompletesOnce(cap: nat, c: Cli, f: Bytes, before: seq<Bytes>, last: Bytes)
    requires Ok(c) && c.current.Some? && c.recv == [] && WholeResponse(f) && |f| <= MAX_ADU
    requires Flatten(before) < f <= Flatten(before) + last && |Flatten(before) + last| <= cap
    ensures |f| >= 5 && CompletedTimes(c, TakeAll(cap, c, before + [last]), f, 1)
  {
    hide Complete, WholeResponse, Receive;
    ResponseInChunks(cap, c, f, before);
    ResponseBytes(cap, c.(recv := Flatten(before)), f, last);
    assert (before + [last])[..|before|] == before;
  }

  // So a response completes its request once for the chunk that brings its last byte, number m, and whatever follows in
  // that chunk, and once more for each non-empty chunk after it.
  lemma {:induction false} CompletionsExactly(cap: nat, c: Cli, f: Bytes, chunks: seq<Bytes>, m: nat)
    requires Ok(c) && c.current.Some? && c.recv == [] && WholeResponse(f) && |f| <= MAX_ADU
    requires m < |chunks| && Flatten(chunks[..m]) < f <= Flatten(chunks[..m + 1]) && |Flatten(chunks[..m + 1])| <= cap
    requires forall i :: m < i < |chunks| ==> |f| + |chunks[i]| <= cap
    ensures |f| >= 5 && CompletedTimes(c, TakeAll(cap, c, chunks), f, 1 + NonEmpty(chunks[m + 1..]))
    decreases |chunks|
  {
    hide Complete, WholeResponse, Take, Completed, CompletedTimes;
    WholeResponseNonEmpty(f);
    var last := |chunks| - 1;
    if last == m {
      assert chunks == chunks[..m] + [chunks[m]] && chunks[..m + 1] == chunks && chunks[m + 1..] == [];
      CompletesOnce(cap, c, f, chunks[..m], chunks[m]);
    } else {
      var before := chunks[..last];
      assert before[..m] == chunks[..m] && before[..m + 1] == chunks[..m + 1];
      CompletionsExactly(cap, c, f, before, m);
      assert chunks[m + 1..][..last - m - 1] == before[m + 1..];
      LastChunk(cap, c, TakeAll(cap, c, before), f, chunks[last], 1 + NonEmpty(before[m + 1..]));
    }
  }

  lemma LastChunk(cap: nat, c: Cli, c': Cli, f: Bytes, data: Bytes, n: nat)
    requires Ok(c) && c.current.Some? && WholeResponse(f) && |f| <= MAX_ADU && |f| + |data| <= cap
    requires |f| >= 5 && CompletedTimes(c, c', f, n)
    ensures CompletedTimes(c, Take(cap, c', data), f, if data == [] then n else n + 1)
  {
    hide Complete, WholeResponse, Receive, Completed;
    CompletionRepeats(cap, c', f, data);
    OnceMore(c, c', f, n);
  }

  // A request that is not a read never completes with success, whatever comes back: the client interprets every
  // response as a read response.
  lemma OnlyReadsSucceed(req: Request, frame: Bytes)
    requires |req.frame| >= 2 && |frame| >= 5 && Complete(req, frame).regs.Some?
    ensures IsRead(req.frame[1]) && ValidFrame(frame) && frame[0] == req.unitId && frame[1] == req.frame[1]
  {
    hide IsRead, IsCoilRead, IsExceptionTo, ValidFrame, ByteVal, UnpackRegs, Widen;
  }

  // What the client makes of a whole response, in terms of its bytes. Every completion names the unit and address
  // asked; it succeeds exactly for a read response of that unit and function whose data the 128 registers hold; and
  // then item i is byte i of the data, for coils, or word i, high byte first, for registers.
  lemma WholeResponseCompletes(req: Request, f: Bytes)
    requires |req.frame| >= 2 && WholeResponse(f) && |f| >= 5
    ensures var r, n, coils := Complete(req, f), ByteVal(f[2]), f[1] == 0x01 || f[1] == 0x02;
            && r.unitId == req.unitId && r.addr == req.addr
            && (r.regs.Some? <==>
                  f[0] == req.unitId && f[1] == req.frame[1]
                  && ((coils && n <= 128) || ((f[1] == 0x03 || f[1] == 0x04) && n % 2 == 0)))
            && (r.regs.Some? ==>
                  && |f| == 5 + n && |r.regs.value| == (if coils then n else n / 2)
                  && forall i :: 0 <= i < |r.regs.value| ==>
                       r.regs.value[i] == if coils then f[3 + i] as bv16 else Word(f[3 + 2 * i], f[4 + 2 * i]))
  {
    WholeResponseIsLong(f);
    ResponseParsed(f, req.frame[1]);
    hide WholeResponse, ResponseIsLong, ByteVal, ParseReadPdu, Word;
  }

  lemma ResponseParsed(f: Bytes, fc: bv8)
    requires |f| >= 5 && ResponseIsLong(f, |f|)
    ensures var r, n, coils := ParseReadPdu(f[1..|f| - 2], fc, MAX_REGS), ByteVal(f[2]), f[1] == 0x01 || f[1] == 0x02;
            && (r.Registers? <==>
                  f[1] == fc && ((coils && n <= 128) || ((f[1] == 0x03 || f[1] == 0x04) && n % 2 == 0)))
            && (r.Registers? ==>
                  && |f| == 5 + n && |r.regs| == (if coils then n else n / 2)
                  && forall i :: 0 <= i < |r.regs| ==>
                       r.regs[i] == if coils then f[3 + i] as bv16 else Word(f[3 + 2 * i], f[4 + 2 * i]))
  {
    TopBit(f[1]);
    FunctionsAreNotExceptions(f[1]);
    hide IsException, ByteVal, Word, UnpackRegs;
    var pdu, n := f[1..|f| - 2], ByteVal(f[2]);
    if IsRead(f[1]) {
      assert |f| == 5 + n && pdu[2..2 + n] == f[3..3 + n];
      if !IsCoilRead(f[1]) && n % 2 == 0 {
        forall i | 0 <= i < n / 2 ensures UnpackRegs(f[3..3 + n])[i] == Word(f[3 + 2 * i], f[4 + 2 * i]) {
          UnpackAt(f[3..3 + n], i);
        }
      }
    }
  }
}
