// Where a frame ends: the incremental delimiting that server and client run over the bytes they have so far.
module Framing {
  import opened Bytes
  import opened Crc

  const MIN_FRAME := 4
  const MAX_FRAME := 260

  // The size of the arrays that hold one PDU, and the length of the frame around a PDU of that size.
  const MAX_PDU := 253
  const MAX_ADU := 256

  datatype Parse = NeedMore | Ready(frameLen: nat) | FrameError

  // What the first bytes say about the length of the frame: not known yet (-1), no such function (-2), or a length.
  datatype Length = Unknown | NoSuchFunction | Exactly(n: nat)

  predicate IsException(fc: bv8) {
    fc & 0x80 != 0
  }

  predicate IsRead(fc: bv8) {
    fc == 0x01 || fc == 0x02 || fc == 0x03 || fc == 0x04
  }

  predicate IsWriteSingle(fc: bv8) {
    fc == 0x05 || fc == 0x06
  }

  predicate IsWriteMultiple(fc: bv8) {
    fc == 0x0F || fc == 0x10
  }

  predicate IsWrite(fc: bv8) {
    IsWriteSingle(fc) || IsWriteMultiple(fc)
  }

  lemma FunctionsAreNotExceptions(fc: bv8)
    ensures IsRead(fc) || IsWrite(fc) ==> !IsException(fc)
  {
  }

  // The server's rule, for requests.
  function RequestLength(buf: Bytes): Length {
    if |buf| < 2 then Unknown
    else if IsException(buf[1]) then Exactly(5)
    else if IsRead(buf[1]) || IsWriteSingle(buf[1]) then Exactly(8)
    else if IsWriteMultiple(buf[1]) then
      if |buf| < 7 then Unknown else Exactly(9 + ByteVal(buf[6]))
    else NoSuchFunction
  }

  // The client's rule, for responses.
  function ResponseLength(buf: Bytes): Length {
    if |buf| < 2 then Unknown
    else if IsException(buf[1]) then Exactly(5)
    else if IsRead(buf[1]) then
      if |buf| < 3 then Unknown else Exactly(3 + ByteVal(buf[2]) + 2)
    else if IsWrite(buf[1]) then Exactly(8)
    else NoSuchFunction
  }

  function Delimit(length: Length, buf: Bytes): Parse
    requires length.Exactly? ==> length.n >= 2
  {
    if |buf| < MIN_FRAME then NeedMore
    else match length
      case Unknown => NeedMore
      case NoSuchFunction => FrameError
      case Exactly(n) =>
        if |buf| < n then NeedMore else if !ValidFrame(buf[..n]) then FrameError else Ready(n)
  }

  function ParseRequest(buf: Bytes): (p: Parse)
    ensures p.Ready? ==> 5 <= p.frameLen <= |buf|
  {
    Delimit(RequestLength(buf), buf)
  }

  function ParseResponse(buf: Bytes): (p: Parse)
    ensures p.Ready? ==> 5 <= p.frameLen <= |buf|
  {
    Delimit(ResponseLength(buf), buf)
  }

  // Once the length is decided, further bytes do not change it.
  lemma RequestLengthStable(p: Bytes, q: Bytes)
    requires p <= q && RequestLength(p) != Unknown
    ensures RequestLength(q) == RequestLength(p)
  {
    hide IsException, IsRead, IsWriteSingle, IsWriteMultiple, ByteVal;
  }

  lemma ResponseLengthStable(p: Bytes, q: Bytes)
    requires p <= q && ResponseLength(p) != Unknown
    ensures ResponseLength(q) == ResponseLength(p)
  {
    hide IsException, IsRead, IsWrite, ByteVal;
  }

  // A whole request frame: it is delimited at its own length.
  ghost predicate WholeRequest(f: Bytes) {
    ParseRequest(f) == Ready(|f|)
  }

  ghost predicate WholeResponse(f: Bytes) {
    ParseResponse(f) == Ready(|f|)
  }

  // Delimiting is prefix-correct: no proper prefix of a whole frame is acted upon, in any way, and whatever follows
  // the frame does not change where it ends.
  lemma RequestPrefixCorrect(f: Bytes, buf: Bytes)
    requires WholeRequest(f)
    ensures buf < f ==> ParseRequest(buf) == NeedMore
    ensures f <= buf ==> ParseRequest(buf) == Ready(|f|)
  {
    hide ByteVal, ValidFrame;
    if buf < f && RequestLength(buf) != Unknown {
      RequestLengthStable(buf, f);
    }
    if f <= buf {
      RequestLengthStable(f, buf);
      assert buf[..|f|] == f == f[..|f|];
    }
  }

  lemma ResponsePrefixCorrect(f: Bytes, buf: Bytes)
    requires WholeResponse(f)
    ensures buf < f ==> ParseResponse(buf) == NeedMore
    ensures f <= buf ==> ParseResponse(buf) == Ready(|f|)
  {
    hide ByteVal, ValidFrame;
    if buf < f && ResponseLength(buf) != Unknown {
      ResponseLengthStable(buf, f);
    }
    if f <= buf {
      ResponseLengthStable(f, buf);
      assert buf[..|f|] == f == f[..|f|];
    }
  }

  // ---------------------------------------------------------------------------------------------------------------
  // What each rule answers, for every buffer. The length that the first bytes fix, byte by byte of the function code.

  ghost predicate RequestIsLong(buf: Bytes, n: nat) {
    && |buf| >= 2
    && (buf[1] >= 0x80 ==> n == 5)
    && (buf[1] in {0x01, 0x02, 0x03, 0x04, 0x05, 0x06} ==> n == 8)
    && (buf[1] in {0x0F, 0x10} ==> |buf| >= 7 && n == 9 + ByteVal(buf[6]))
    && (buf[1] >= 0x80 || buf[1] in {0x01, 0x02, 0x03, 0x04, 0x05, 0x06, 0x0F, 0x10})
  }

  ghost predicate ResponseIsLong(buf: Bytes, n: nat) {
    && |buf| >= 2
    && (buf[1] >= 0x80 ==> n == 5)
    && (buf[1] in {0x01, 0x02, 0x03, 0x04} ==> |buf| >= 3 && n == 5 + ByteVal(buf[2]))
    && (buf[1] in {0x05, 0x06, 0x0F, 0x10} ==> n == 8)
    && (buf[1] >= 0x80 || buf[1] in {0x01, 0x02, 0x03, 0x04, 0x05, 0x06, 0x0F, 0x10})
  }

  ghost predicate UnknownFunction(buf: Bytes) {
    |buf| >= 2 && buf[1] < 0x80 && buf[1] !in {0x01, 0x02, 0x03, 0x04, 0x05, 0x06, 0x0F, 0x10}
  }

  lemma TopBit(fc: bv8)
    ensures IsException(fc) <==> fc >= 0x80
  {
    assert fc & 0x80 != 0 <==> fc >= 0x80;
  }

  // A frame is rejected exactly if at least four bytes are there and either no function has this code, or all of the
  // frame is there and its CRC is wrong; it is ready exactly if all of it is there and its CRC is right.
  lemma RequestVerdict(buf: Bytes, n: nat)
    ensures |buf| < 4 ==> ParseRequest(buf) == NeedMore
    ensures |buf| >= 4 && UnknownFunction(buf) ==> ParseRequest(buf) == FrameError
    ensures |buf| >= 4 && RequestIsLong(buf, n) ==>
            ParseRequest(buf) == if |buf| < n then NeedMore else if ValidFrame(buf[..n]) then Ready(n) else FrameError
    ensures ParseRequest(buf) != NeedMore ==>
            |buf| >= 4 && (UnknownFunction(buf) || exists k: nat :: RequestIsLong(buf, k) && k <= |buf|)
  {
    hide ValidFrame, ByteVal;
    if |buf| >= 2 {
      TopBit(buf[1]);
      FunctionsAreNotExceptions(buf[1]);
      hide IsException;
      match RequestLength(buf)
      case Exactly(k) => assert RequestIsLong(buf, k);
      case _ =>
    }
  }

  lemma ResponseVerdict(buf: Bytes, n: nat)
    ensures |buf| < 4 ==> ParseResponse(buf) == NeedMore
    ensures |buf| >= 4 && UnknownFunction(buf) ==> ParseResponse(buf) == FrameError
    ensures |buf| >= 4 && ResponseIsLong(buf, n) ==>
            ParseResponse(buf) == if |buf| < n then NeedMore else if ValidFrame(buf[..n]) then Ready(n) else FrameError
    ensures ParseResponse(buf) != NeedMore ==>
            |buf| >= 4 && (UnknownFunction(buf) || exists k: nat :: ResponseIsLong(buf, k) && k <= |buf|)
  {
    hide ValidFrame, ByteVal;
    if |buf| >= 2 {
      TopBit(buf[1]);
      FunctionsAreNotExceptions(buf[1]);
      hide IsException;
      match ResponseLength(buf)
      case Exactly(k) => assert ResponseIsLong(buf, k);
      case _ =>
    }
  }

  lemma WholeRequestIsLong(f: Bytes)
    requires WholeRequest(f)
    ensures |f| >= 5 && RequestIsLong(f, |f|) && ValidFrame(f)
  {
    hide ValidFrame, ByteVal, ParseRequest, RequestIsLong, UnknownFunction;
    RequestVerdict(f, 0);
    var k: nat :| RequestIsLong(f, k) && k <= |f|;
    RequestVerdict(f, k);
    assert f[..|f|] == f;
  }

  lemma WholeResponseIsLong(f: Bytes)
    requires WholeResponse(f)
    ensures |f| >= 5 && ResponseIsLong(f, |f|) && ValidFrame(f)
  {
    hide ValidFrame, ByteVal, ParseResponse, ResponseIsLong, UnknownFunction;
    ResponseVerdict(f, 0);
    var k: nat :| ResponseIsLong(f, k) && k <= |f|;
    ResponseVerdict(f, k);
    assert f[..|f|] == f;
  }

  // Bytes as long as their function code says, with a wrong CRC: nothing is acted upon before the last of them, and
  // then all is rejected.
  lemma RequestRejected(g: Bytes, buf: Bytes)
    requires |g| >= 4 && RequestIsLong(g, |g|) && !ValidFrame(g)
    ensures buf < g ==> ParseRequest(buf) == NeedMore
    ensures g <= buf ==> ParseRequest(buf) == FrameError
  {
    hide ValidFrame, ByteVal;
    if buf < g {
      RequestVerdict(buf, |g|);
    }
    if g <= buf {
      RequestVerdict(buf, |g|);
      assert buf[..|g|] == g;
    }
  }

  lemma ResponseRejected(g: Bytes, buf: Bytes)
    requires |g| >= 4 && ResponseIsLong(g, |g|) && !ValidFrame(g)
    ensures buf < g ==> ParseResponse(buf) == NeedMore
    ensures g <= buf ==> ParseResponse(buf) == FrameError
  {
    hide ValidFrame, ByteVal;
    if buf < g {
      ResponseVerdict(buf, |g|);
    }
    if g <= buf {
      ResponseVerdict(buf, |g|);
      assert buf[..|g|] == g;
    }
  }
}
