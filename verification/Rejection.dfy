// What is not a frame: corrupted frames, unknown functions and chunks that do not fit are dropped, by server and
// client, without a trace, and what comes next is handled as if they had not been there.
module Rejection {
  import opened Bytes
  import opened Crc
  import opened CrcDetection
  import opened CrcDistance
  import opened Framing
  import opened ServerSpec
  import opened ServerBounds
  import opened ServerTheorems
  import opened EndToEnd
  import Cl = ClientSpec

  // The transmission errors that the CRC is sure to reveal.
  ghost predicate Noticeable(e: Bytes) {
    Odd(BitCount(e)) || 1 <= BitCount(e) <= 3 || exists i: nat, p: bv16, k: bv24 :: Burst(e, i, p, k)
  }

  lemma Noticed(f: Bytes, e: Bytes, g: Bytes)
    requires 2 <= |f| <= 264 && ValidFrame(f) && Corrupts(f, e, g) && Noticeable(e)
    ensures !ValidFrame(g)
  {
    hide ValidFrame, BitCount, Corrupts, Odd, Burst;
    if Odd(BitCount(e)) {
      OddErrorDetected(f, e, g);
    } else if 1 <= BitCount(e) <= 3 {
      FewBitErrorDetected(f, e, g);
    } else {
      var i: nat, p: bv16, k: bv24 :| Burst(e, i, p, k);
      BurstDetected(f, e, g, i, p, k);
    }
  }

  lemma NotFlipped(g: bv8, f: bv8)
    requires IsFlipped(g, f, 0)
    ensures g == f
  {
  }

  // The error leaves the bytes alone that tell how long the frame is. It may be anywhere else, in the trailer too.
  ghost predicate SparesRequestLength(f: Bytes, e: Bytes) {
    |f| == |e| >= 5 && e[1] == 0 && (f[1] in {0x0F, 0x10} && |e| >= 7 ==> e[6] == 0)
  }

  ghost predicate SparesResponseLength(f: Bytes, e: Bytes) {
    |f| == |e| >= 5 && e[1] == 0 && (f[1] in {0x01, 0x02, 0x03, 0x04} ==> e[2] == 0)
  }

  lemma CorruptedRequest(f: Bytes, e: Bytes, g: Bytes)
    requires WholeRequest(f) && |f| <= MAX_FRAME && Corrupts(f, e, g)
    requires SparesRequestLength(f, e) && Noticeable(e)
    ensures |g| >= 5 && RequestIsLong(g, |g|) && !ValidFrame(g)
  {
    hide Noticeable, ValidFrame, ByteVal, IsFlipped, ParseRequest;
    WholeRequestIsLong(f);
    NotFlipped(g[1], f[1]);
    if f[1] in {0x0F, 0x10} {
      NotFlipped(g[6], f[6]);
    }
    Noticed(f, e, g);
  }

  lemma CorruptedResponse(f: Bytes, e: Bytes, g: Bytes)
    requires WholeResponse(f) && |f| <= MAX_FRAME && Corrupts(f, e, g)
    requires SparesResponseLength(f, e) && Noticeable(e)
    ensures |g| >= 5 && ResponseIsLong(g, |g|) && !ValidFrame(g)
  {
    hide Noticeable, ValidFrame, ByteVal, IsFlipped, ParseResponse;
    WholeResponseIsLong(f);
    NotFlipped(g[1], f[1]);
    if f[1] in {0x01, 0x02, 0x03, 0x04} {
      NotFlipped(g[2], f[2]);
    }
    Noticed(f, e, g);
  }

  // ---------------------------------------------------------------------------------------------------------------
  // The server.

  // However bytes with a wrong CRC arrive, the server waits for the last of them and is then as it was before.
  lemma {:induction false} DroppedInChunks(cfg: Config, s: Srv, g: Bytes, events: seq<Event>)
    requires s.queue == [] && s.pending.None? && |g| <= MAX_FRAME && |g| < cfg.cap && SentEvent !in events
    requires |g| >= 4 && RequestIsLong(g, |g|) && !ValidFrame(g)
    ensures Fed(events) < g ==> Run(cfg, s, events) == s.(queue := Fed(events))
    ensures Fed(events) == g ==> Run(cfg, s, events) == s
  {
    hide Handle, ParseRequest, ValidFrame, RequestIsLong;
    if events != [] {
      var before, e := events[..|events| - 1], events[|events| - 1];
      assert e in events;
      DroppedInChunks(cfg, s, g, before);
      assert e.data == [] ==> Fed(events) == Fed(before);
      if e.data != [] && Fed(events) <= g {
        var q := Fed(events);
        assert q == Fed(before) + e.data && Fed(before) < g;
        RequestRejected(g, q);
        assert View(q) == q;
        CommitIsFeed(cfg, s.(queue := Fed(before)), e.data);
      }
    }
  }

  lemma {:induction false} RunConcat(cfg: Config, s: Srv, a: seq<Event>, b: seq<Event>)
    ensures Run(cfg, s, a + b) == Run(cfg, Run(cfg, s, a), b)
  {
    hide Step;
    if b == [] {
      assert a + b == a;
    } else {
      var n := |b| - 1;
      RunConcat(cfg, s, a, b[..n]);
      assert (a + b)[..|a + b| - 1] == a + b[..n];
    }
  }

  // A request with a noticeable error in its data or trailer, in whatever pieces, makes no callback and gets no
  // response; the next whole request, in whatever pieces, is handled as if it had come first.
  lemma ServerRecovers(cfg: Config, s: Srv, f: Bytes, e: Bytes, g: Bytes, events: seq<Event>, next: Bytes,
                       more: seq<Event>)
    requires s.queue == [] && s.pending.None? && SentEvent !in events && SentEvent !in more
    requires WholeRequest(f) && |f| <= MAX_FRAME && |f| < cfg.cap && Corrupts(f, e, g)
    requires SparesRequestLength(f, e) && Noticeable(e) && Fed(events) == g
    requires WholeRequest(next) && |next| >= 5 && |next| < cfg.cap && Safe(cfg, s.units, next)
    ensures Run(cfg, s, events) == s
    ensures Fed(more) == next ==>
            var o := Handle(cfg, s.units, next);
            Run(cfg, s, events + more) == s.(pending := o.response, calls := s.calls + o.calls)
  {
    hide Handle, Run, Fed, WholeRequest, Noticeable, Safe, ValidFrame, RequestIsLong;
    CorruptedRequest(f, e, g);
    DroppedInChunks(cfg, s, g, events);
    RunConcat(cfg, s, events, more);
    RequestInChunks(cfg, s, next, more);
  }

  // Bytes that name no function are dropped as soon as there are four of them, with all that came in the same chunk.
  lemma UnknownFunctionDropped(cfg: Config, s: Srv, g: Bytes)
    requires s.queue == [] && s.pending.None? && 4 <= |g| <= Free(cfg, s) && UnknownFunction(g)
    ensures Feed(cfg, s, g) == s
  {
    hide ParseRequest;
    assert s.queue + g == g;
    RequestVerdict(View(g), 0);
  }

  // A chunk larger than the free space empties the queue, and leaves a waiting response and the callbacks alone. If
  // none waits, the next whole request is handled as if it had come first.
  lemma OverflowDropped(cfg: Config, s: Srv, data: Bytes, next: Bytes)
    requires data != [] && |data| > Free(cfg, s)
    ensures Feed(cfg, s, data) == s.(queue := [])
    ensures s.pending.None? && WholeRequest(next) && |next| >= 5 && |next| < cfg.cap && Safe(cfg, s.units, next) ==>
            var o := Handle(cfg, s.units, next);
            Feed(cfg, Feed(cfg, s, data), next)
            == s.(queue := [], pending := o.response, calls := s.calls + o.calls)
  {
    hide Handle, WholeRequest, Safe, TryProcess;
    if s.pending.None? && WholeRequest(next) && |next| >= 5 && |next| < cfg.cap && Safe(cfg, s.units, next) {
      OneFeed(cfg, s.(queue := []), next);
    }
  }

  lemma OneFeed(cfg: Config, s: Srv, f: Bytes)
    requires s.queue == [] && s.pending.None? && WholeRequest(f) && |f| >= 5 && |f| < cfg.cap && Safe(cfg, s.units, f)
    ensures var o := Handle(cfg, s.units, f);
            Feed(cfg, s, f) == s.(pending := o.response, calls := s.calls + o.calls)
  {
    hide Handle, WholeRequest, Safe, TryProcess;
    var events := [FeedEvent(f)];
    assert events[..0] == [];
    assert Fed(events) == [] + f == f;
    RequestInChunks(cfg, s, f, events);
  }

  // ---------------------------------------------------------------------------------------------------------------
  // The client.

  lemma {:induction false} DroppedByClient(cap: nat, c: Cl.Cli, g: Bytes, chunks: seq<Bytes>)
    requires Cl.Ok(c) && c.current.Some? && c.recv == [] && |g| <= cap
    requires |g| >= 4 && ResponseIsLong(g, |g|) && !ValidFrame(g)
    ensures Flatten(chunks) < g ==> Cl.TakeAll(cap, c, chunks) == c.(recv := Flatten(chunks))
    ensures Flatten(chunks) == g ==> Cl.TakeAll(cap, c, chunks) == c
  {
    hide Cl.Complete, ParseResponse, ValidFrame, ResponseIsLong;
    if chunks != [] {
      var before, chunk := chunks[..|chunks| - 1], chunks[|chunks| - 1];
      DroppedByClient(cap, c, g, before);
      assert chunk == [] ==> Flatten(chunks) == Flatten(before);
      if chunk != [] && Flatten(chunks) <= g {
        assert |Flatten(before)| < |g| && Flatten(before) == g[..|Flatten(before)|];
        ResponseRejected(g, Flatten(chunks));
      }
    }
  }

  lemma {:induction false} TakeConcat(cap: nat, c: Cl.Cli, a: seq<Bytes>, b: seq<Bytes>)
    requires Cl.Ok(c)
    ensures Cl.TakeAll(cap, c, a + b) == Cl.TakeAll(cap, Cl.TakeAll(cap, c, a), b)
  {
    hide Cl.Take;
    if b == [] {
      assert a + b == a;
    } else {
      var n := |b| - 1;
      TakeConcat(cap, c, a, b[..n]);
      assert (a + b)[..|a + b| - 1] == a + b[..n];
    }
  }

  // A response with a noticeable error, in whatever pieces, completes nothing; a whole response after it completes the
  // request once.
  lemma ClientRecovers(cap: nat, c: Cl.Cli, f: Bytes, e: Bytes, g: Bytes, chunks: seq<Bytes>, next: Bytes,
                       more: seq<Bytes>)
    requires Cl.Ok(c) && c.current.Some? && c.recv == []
    requires WholeResponse(f) && |f| <= MAX_FRAME && |f| <= cap && Corrupts(f, e, g)
    requires SparesResponseLength(f, e) && Noticeable(e) && Flatten(chunks) == g
    requires WholeResponse(next) && 5 <= |next| <= cap && |next| <= MAX_ADU
    ensures Cl.TakeAll(cap, c, chunks) == c
    ensures Flatten(more) == next ==> Cl.TakeAll(cap, c, chunks + more) == Cl.Completed(c, next)
  {
    hide Cl.TakeAll, Cl.Complete, Flatten, WholeResponse, Noticeable, ValidFrame, ResponseIsLong;
    CorruptedResponse(f, e, g);
    DroppedByClient(cap, c, g, chunks);
    TakeConcat(cap, c, chunks, more);
    Cl.ResponseInChunks(cap, c, next, more);
  }

  lemma UnknownResponseDropped(cap: nat, c: Cl.Cli, g: Bytes)
    requires Cl.Ok(c) && c.current.Some? && c.recv == [] && 4 <= |g| <= cap && UnknownFunction(g)
    ensures Cl.Take(cap, c, g) == c
  {
    hide ParseResponse;
    assert c.recv + g == g;
    ResponseVerdict(g, 0);
  }

  // A chunk that does not fit empties the buffer and completes nothing; without a request that is awaited, nothing is
  // taken in at all.
  lemma ClientOverflow(cap: nat, c: Cl.Cli, data: Bytes)
    requires Cl.Ok(c) && data != []
    ensures c.current.Some? && |c.recv| + |data| > cap ==> Cl.Take(cap, c, data) == c.(recv := [])
    ensures c.current.None? ==> Cl.Take(cap, c, data) == c
  {
  }
}
