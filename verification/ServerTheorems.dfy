// What the server promises over whole runs: the gate, pipelining, and which frames are answered.
module ServerTheorems {
  import opened Bytes
  import opened Framing
  import opened ServerSpec
  import opened ServerBounds

  datatype Event = FeedEvent(data: Bytes) | CommitEvent(data: Bytes) | SentEvent

  ghost function Step(cfg: Config, s: Srv, e: Event): Srv {
    match e
    case FeedEvent(data) => Feed(cfg, s, data)
    case CommitEvent(data) => Commit(cfg, s, data)
    case SentEvent => ResponseSent(cfg, s)
  }

  ghost function Run(cfg: Config, s: Srv, events: seq<Event>): Srv {
    if events == [] then s else Step(cfg, Run(cfg, s, events[..|events| - 1]), events[|events| - 1])
  }

  // The responses that have been sent: one for each SentEvent that found one waiting.
  ghost function Sent(cfg: Config, s: Srv, events: seq<Event>): seq<Bytes> {
    if events == [] then []
    else
      var before, e := events[..|events| - 1], events[|events| - 1];
      Sent(cfg, s, before) +
      if e.SentEvent? && Run(cfg, s, before).pending.Some? then [Run(cfg, s, before).pending.value] else []
  }

  // ---------------------------------------------------------------------------------------------------------------
  // The gate: while a response waits, nothing but its being sent touches it, and no callback runs. Bytes that are fed are
  // queued or, if they do not fit, empty the queue; bytes that are committed are ignored.

  lemma GateStep(cfg: Config, s: Srv, e: Event)
    requires s.pending.Some? && !e.SentEvent?
    ensures var s' := Step(cfg, s, e);
            s'.pending == s.pending && s'.calls == s.calls && s'.units == s.units
            && (s'.queue == [] || s.queue <= s'.queue)
    ensures e.CommitEvent? ==> Step(cfg, s, e) == s
    ensures e.FeedEvent? && |e.data| <= Free(cfg, s) ==> Step(cfg, s, e) == s.(queue := s.queue + e.data)
    ensures e.FeedEvent? && |e.data| > Free(cfg, s) && e.data != [] ==> Step(cfg, s, e) == s.(queue := [])
  {
    assert s.queue + [] == s.queue;
  }

  lemma {:induction false} GateHolds(cfg: Config, s: Srv, events: seq<Event>)
    requires s.pending.Some? && SentEvent !in events
    ensures Run(cfg, s, events).pending == s.pending && Run(cfg, s, events).calls == s.calls
  {
    if events != [] {
      var before, e := events[..|events| - 1], events[|events| - 1];
      assert e in events;
      GateHolds(cfg, s, before);
      GateStep(cfg, Run(cfg, s, before), e);
    }
  }

  // ---------------------------------------------------------------------------------------------------------------
  // Pipelining.

  // The bytes that the events bring in.
  function Fed(events: seq<Event>): Bytes {
    if events == [] then []
    else Fed(events[..|events| - 1]) + if events[|events| - 1].SentEvent? then [] else events[|events| - 1].data
  }

  // No event overflows the ring, and the transport commits only what it could reserve.
  ghost predicate Admissible(cfg: Config, s: Srv, events: seq<Event>) {
    events == [] ||
    (var before, e := Run(cfg, s, events[..|events| - 1]), events[|events| - 1];
     && Admissible(cfg, s, events[..|events| - 1])
     && (!e.SentEvent? ==> |e.data| <= Free(cfg, before))
     && (e.CommitEvent? ==> before.pending.None?))
  }

  // Whole request frames that the server handles within its arrays.
  ghost predicate AllSafe(cfg: Config, units: set<nat>, frames: seq<Bytes>) {
    forall i :: 0 <= i < |frames| ==> WholeRequest(frames[i]) && |frames[i]| >= 5 && Safe(cfg, units, frames[i])
  }

  // And answers.
  ghost predicate Answered(cfg: Config, units: set<nat>, frames: seq<Bytes>) {
    AllSafe(cfg, units, frames)
    && forall i :: 0 <= i < |frames| ==> Handle(cfg, units, frames[i]).response.Some?
  }

  function Optional<T>(o: Option<T>): seq<T> {
    if o.Some? then [o.value] else []
  }

  // The responses to those that are answered, and the callbacks, in order.
  ghost function Responses(cfg: Config, units: set<nat>, frames: seq<Bytes>): seq<Bytes> {
    if frames == [] then []
    else
      Responses(cfg, units, frames[..|frames| - 1]) + Optional(Handle(cfg, units, frames[|frames| - 1]).response)
  }

  ghost function CallsFor(cfg: Config, units: set<nat>, frames: seq<Bytes>): seq<Call> {
    if frames == [] then []
    else CallsFor(cfg, units, frames[..|frames| - 1]) + Handle(cfg, units, frames[|frames| - 1]).calls
  }

  // Where the server stands in a list of frames: how many it has handled, and whether the last answer still waits.
  datatype Place = Place(k: nat, waiting: bool)

  // One frame more is handled if all of it is among the `fed` bytes received.
  ghost function NextPlace(cfg: Config, units: set<nat>, frames: seq<Bytes>, fed: nat, k: nat): (p: Place)
    requires k <= |frames|
    ensures p.k <= |frames| && (p.waiting ==> p.k > 0)
  {
    if k < |frames| && fed >= |Flatten(frames[..k + 1])| then Place(k + 1, Handle(cfg, units, frames[k]).response.Some?)
    else Place(k, false)
  }

  // Every event moves the server on by at most one frame: one that brings bytes unless an answer waits, and the sending
  // of the answer. A frame behind one that is not answered has to wait for such an event.
  ghost function PlaceAfter(cfg: Config, units: set<nat>, frames: seq<Bytes>, events: seq<Event>): (p: Place)
    ensures p.k <= |frames| && (p.waiting ==> p.k > 0)
  {
    if events == [] then Place(0, false)
    else
      var p, e := PlaceAfter(cfg, units, frames, events[..|events| - 1]), events[|events| - 1];
      if !e.SentEvent? && (e.data == [] || p.waiting) then p
      else NextPlace(cfg, units, frames, |Fed(events)|, p.k)
  }

  // The server has handled the frames up to its place, in order, and the rest of what was fed is queued.
  ghost predicate Stands(cfg: Config, s0: Srv, frames: seq<Bytes>, s: Srv, sent: seq<Bytes>, fed: Bytes, p: Place) {
    && p.k <= |frames| && s.units == s0.units && s.overrun == s0.overrun
    && s.calls == s0.calls + CallsFor(cfg, s0.units, frames[..p.k])
    && s.pending.Some? == p.waiting && sent + Optional(s.pending) == Responses(cfg, s0.units, frames[..p.k])
    && fed == Flatten(frames[..p.k]) + s.queue
  }

  lemma {:induction false} FlattenConcat(a: seq<Bytes>, b: seq<Bytes>)
    ensures Flatten(a + b) == Flatten(a) + Flatten(b)
  {
    if b == [] {
      assert a + b == a;
    } else {
      var n := |b| - 1;
      FlattenConcat(a, b[..n]);
      assert (a + b)[..|a + b| - 1] == a + b[..n];
    }
  }

  lemma FlattenSnoc(frames: seq<Bytes>, k: nat)
    requires k < |frames|
    ensures Flatten(frames[..k + 1]) == Flatten(frames[..k]) + frames[k]
  {
    assert frames[..k + 1][..k] == frames[..k];
  }

  lemma FlattenAt(frames: seq<Bytes>, k: nat)
    requires k < |frames|
    ensures Flatten(frames) == Flatten(frames[..k]) + (frames[k] + Flatten(frames[k + 1..]))
  {
    hide Flatten;
    var front, back := frames[..k + 1], frames[k + 1..];
    assert frames == front + back;
    FlattenSnoc(frames, k);
    FlattenConcat(front, back);
    ConcatAssociates(Flatten(frames[..k]), frames[k], Flatten(back));
  }

  lemma FlattenLonger(frames: seq<Bytes>, k: nat)
    requires k < |frames|
    ensures |Flatten(frames[..k])| + |frames[k]| == |Flatten(frames[..k + 1])| <= |Flatten(frames)|
  {
    hide Flatten;
    FlattenSnoc(frames, k);
    FlattenAt(frames, k);
  }

  lemma ConcatAssociates(a: Bytes, b: Bytes, c: Bytes)
    ensures (a + b) + c == a + (b + c)
  {
  }

  lemma DropCommon(a: Bytes, q: Bytes, rest: Bytes)
    requires a + q <= a + rest
    ensures q <= rest
  {
    assert (a + q)[|a|..] == q && (a + rest)[|a|..] == rest;
    assert (a + q)[|a|..] == (a + rest)[..|a + q|][|a|..];
  }

  // The queue and the next frame are prefixes of the same stream.
  lemma NextFrame(frames: seq<Bytes>, k: nat, queue: Bytes)
    requires k <= |frames| && Flatten(frames[..k]) + queue <= Flatten(frames)
    ensures k == |frames| ==> queue == []
    ensures k < |frames| ==> queue < frames[k] || frames[k] <= queue
    ensures k < |frames| ==> Flatten(frames[..k + 1]) == Flatten(frames[..k]) + frames[k]
  {
    hide Flatten;
    if k < |frames| {
      FlattenSnoc(frames, k);
      FlattenAt(frames, k);
      DropCommon(Flatten(frames[..k]), queue, frames[k] + Flatten(frames[k + 1..]));
    } else {
      assert frames[..k] == frames;
    }
  }

  lemma TryProcessStands(cfg: Config, s0: Srv, frames: seq<Bytes>, s: Srv, sent: seq<Bytes>, fed: Bytes, p: Place)
    requires AllSafe(cfg, s0.units, frames) && fed <= Flatten(frames)
    requires Stands(cfg, s0, frames, s, sent, fed, p) && s.pending.None?
    ensures Stands(cfg, s0, frames, TryProcess(cfg, s), sent, fed, NextPlace(cfg, s0.units, frames, |fed|, p.k))
  {
    hide Handle, ParseRequest, WholeRequest, Flatten, Safe;
    var k := p.k;
    NextFrame(frames, k, s.queue);
    if k < |frames| {
      var f := frames[k];
      assert WholeRequest(f);
      if f <= s.queue {
        OverrunIff(cfg, s.units, f);
        HandleOverruns(cfg, s.units, f);
        hide ReadRuns, WriteRuns, InRange, OutOfRange;
        assert f <= View(s.queue);
        RequestPrefixCorrect(f, View(s.queue));
        assert s.queue[..|f|] == f && s.queue == f + s.queue[|f|..];
        assert frames[..k + 1][..k] == frames[..k];
      } else if s.queue != [] {
        assert |f| <= MAX_FRAME by { SafeLength(cfg, s.units, f); }
        assert View(s.queue) == s.queue;
        RequestPrefixCorrect(f, s.queue);
      }
    }
  }

  lemma TakeStands(cfg: Config, s0: Srv, frames: seq<Bytes>, s: Srv, sent: seq<Bytes>, fed: Bytes, data: Bytes,
                   p: Place)
    requires AllSafe(cfg, s0.units, frames) && Stands(cfg, s0, frames, s, sent, fed, p)
    requires |data| <= Free(cfg, s) && fed + data <= Flatten(frames)
    ensures Stands(cfg, s0, frames, Feed(cfg, s, data), sent, fed + data,
                   if data == [] || p.waiting then p else NextPlace(cfg, s0.units, frames, |fed + data|, p.k))
  {
    hide Handle, WholeRequest, Safe, NextPlace, Responses, CallsFor, AllSafe;
    if data == [] {
      assert fed + data == fed;
    } else {
      var s1 := s.(queue := s.queue + data);
      assert Flatten(frames[..p.k]) + s1.queue == fed + data;
      if s.pending.None? {
        TryProcessStands(cfg, s0, frames, s1, sent, fed + data, p);
      }
    }
  }

  // Any whole requests that stay within the arrays, answered or not, back to back, in any chunks that never overflow
  // the ring, by either way in, and interleaved in any way with responses being sent: at every moment the server has
  // handled exactly the frames up to the place that the sizes of the chunks determine, with exactly their callbacks; it
  // has sent exactly the responses to those that are answered, in order, but for one that waits; and it holds exactly
  // the rest.
  lemma {:induction false} PipelineExact(cfg: Config, s0: Srv, frames: seq<Bytes>, events: seq<Event>)
    requires s0.queue == [] && s0.pending.None? && AllSafe(cfg, s0.units, frames)
    requires Admissible(cfg, s0, events) && Fed(events) <= Flatten(frames)
    ensures Stands(cfg, s0, frames, Run(cfg, s0, events), Sent(cfg, s0, events), Fed(events),
                   PlaceAfter(cfg, s0.units, frames, events))
  {
    hide Handle, Safe, AllSafe, TryProcess, NextPlace, Stands;
    if events == [] {
      NothingHandled(cfg, s0, frames);
    } else {
      var before, e := events[..|events| - 1], events[|events| - 1];
      assert Fed(before) <= Fed(events);
      PipelineExact(cfg, s0, frames, before);
      var s, sent := Run(cfg, s0, before), Sent(cfg, s0, before);
      var p := PlaceAfter(cfg, s0.units, frames, before);
      match e
      case SentEvent =>
        assert Fed(events) == Fed(before);
        SentStands(cfg, s0, frames, s, sent, Fed(before), p);
        TryProcessStands(cfg, s0, frames, s.(pending := None), Sent(cfg, s0, events), Fed(events),
                         p.(waiting := false));
      case FeedEvent(data) =>
        assert Sent(cfg, s0, events) == sent;
        TakeStands(cfg, s0, frames, s, sent, Fed(before), data, p);
      case CommitEvent(data) =>
        assert Sent(cfg, s0, events) == sent;
        TakeStands(cfg, s0, frames, s, sent, Fed(before), data, p);
        CommitIsFeed(cfg, s, data);
    }
  }

  lemma NothingHandled(cfg: Config, s: Srv, frames: seq<Bytes>)
    requires s.queue == [] && s.pending.None?
    ensures Stands(cfg, s, frames, s, [], [], Place(0, false))
  {
    assert frames[..0] == [];
  }

  lemma SentStands(cfg: Config, s0: Srv, frames: seq<Bytes>, s: Srv, sent: seq<Bytes>, fed: Bytes, p: Place)
    requires Stands(cfg, s0, frames, s, sent, fed, p)
    ensures Stands(cfg, s0, frames, s.(pending := None), sent + Optional(s.pending), fed, p.(waiting := false))
  {
    hide Responses, CallsFor, Flatten;
    assert (sent + Optional(s.pending)) + [] == sent + Optional(s.pending);
  }

  // So the whole list has been handled and answered exactly when the place is its end and no answer waits.
  lemma CompleteIff(cfg: Config, s0: Srv, frames: seq<Bytes>, events: seq<Event>)
    requires s0.queue == [] && s0.pending.None? && AllSafe(cfg, s0.units, frames)
    requires Admissible(cfg, s0, events) && Fed(events) == Flatten(frames)
    ensures PlaceAfter(cfg, s0.units, frames, events) == Place(|frames|, false)
            <==> Run(cfg, s0, events).queue == [] && Run(cfg, s0, events).pending.None?
    ensures PlaceAfter(cfg, s0.units, frames, events) == Place(|frames|, false) ==>
            && Sent(cfg, s0, events) == Responses(cfg, s0.units, frames)
            && Run(cfg, s0, events) == s0.(calls := s0.calls + CallsFor(cfg, s0.units, frames))
  {
    hide Handle, AllSafe, PlaceAfter, Run, Sent, Fed, Admissible, Flatten, Responses, CallsFor;
    PipelineExact(cfg, s0, frames, events);
    var k, queue := PlaceAfter(cfg, s0.units, frames, events).k, Run(cfg, s0, events).queue;
    assert frames[..|frames|] == frames;
    if k < |frames| {
      FlattenAt(frames, k);
      FrameAt(cfg, s0.units, frames, k);
      assert |Flatten(frames[..k]) + queue| > |Flatten(frames[..k])|;
    } else {
      assert |Flatten(frames) + queue| == |Flatten(frames)|;
    }
  }

  lemma FrameAt(cfg: Config, units: set<nat>, frames: seq<Bytes>, k: nat)
    requires AllSafe(cfg, units, frames) && k < |frames|
    ensures |frames[k]| >= 5
  {
  }

  // Once all bytes are in, each response sent - or event that finds none to send - moves the server on by exactly one
  // frame, until it has handled them all; and then one more is enough.
  lemma {:induction false} PipelineDrains(cfg: Config, s0: Srv, frames: seq<Bytes>, events: seq<Event>, n: nat)
    requires s0.queue == [] && s0.pending.None? && AllSafe(cfg, s0.units, frames)
    requires Admissible(cfg, s0, events) && Fed(events) == Flatten(frames)
    ensures var more, k := events + seq(n, _ => SentEvent), PlaceAfter(cfg, s0.units, frames, events).k;
            && Admissible(cfg, s0, more) && Fed(more) == Flatten(frames)
            && PlaceAfter(cfg, s0.units, frames, more).k == Min(|frames|, k + n)
            && (n > |frames| - k ==> !PlaceAfter(cfg, s0.units, frames, more).waiting)
  {
    hide AllSafe, TryProcess, Handle, Flatten, Run, Sent, Admissible, Fed, PlaceAfter;
    var more := events + seq(n, _ => SentEvent);
    if n == 0 {
      assert more == events;
    } else {
      PipelineDrains(cfg, s0, frames, events, n - 1);
      var less := events + seq(n - 1, _ => SentEvent);
      assert more == less + [SentEvent];
      OneMoreSent(cfg, s0, less, more);
      OnePlaceOn(cfg, s0.units, frames, less, more);
    }
  }

  lemma OnePlaceOn(cfg: Config, units: set<nat>, frames: seq<Bytes>, less: seq<Event>, more: seq<Event>)
    requires more == less + [SentEvent] && Fed(less) == Flatten(frames)
    ensures var k, p := PlaceAfter(cfg, units, frames, less).k, PlaceAfter(cfg, units, frames, more);
            if k < |frames| then p.k == k + 1 else p == Place(k, false)
  {
    hide Handle, Flatten;
    assert more[..|more| - 1] == less;
    var k := PlaceAfter(cfg, units, frames, less).k;
    if k < |frames| {
      FlattenLonger(frames, k);
    }
  }

  lemma OneMoreSent(cfg: Config, s: Srv, less: seq<Event>, more: seq<Event>)
    requires more == less + [SentEvent]
    ensures Run(cfg, s, more) == ResponseSent(cfg, Run(cfg, s, less)) && Fed(more) == Fed(less)
    ensures Admissible(cfg, s, more) <==> Admissible(cfg, s, less)
  {
    hide TryProcess;
    assert more[..|more| - 1] == less;
  }

  // So any list of frames is served completely once enough such events have followed.
  lemma PipelineCompletes(cfg: Config, s0: Srv, frames: seq<Bytes>, events: seq<Event>, n: nat)
    requires s0.queue == [] && s0.pending.None? && AllSafe(cfg, s0.units, frames)
    requires Admissible(cfg, s0, events) && Fed(events) == Flatten(frames)
    requires n > |frames| - PlaceAfter(cfg, s0.units, frames, events).k
             || (n >= |frames| && Answered(cfg, s0.units, frames))
    ensures var more := events + seq(n, _ => SentEvent);
            && Sent(cfg, s0, more) == Responses(cfg, s0.units, frames)
            && Run(cfg, s0, more) == s0.(calls := s0.calls + CallsFor(cfg, s0.units, frames))
  {
    hide Answered, AllSafe, Handle, Flatten, Run, Sent, Admissible, Fed, PlaceAfter, Responses, CallsFor;
    if Answered(cfg, s0.units, frames) {
      AnsweredStarts(cfg, s0.units, frames, events);
    }
    PipelineDrains(cfg, s0, frames, events, n);
    CompleteIff(cfg, s0, frames, events + seq(n, _ => SentEvent));
  }

  lemma AnsweredStarts(cfg: Config, units: set<nat>, frames: seq<Bytes>, events: seq<Event>)
    requires Answered(cfg, units, frames) && Fed(events) == Flatten(frames)
    ensures PlaceAfter(cfg, units, frames, events).k > 0 || frames == []
  {
    AnsweredNeverStall(cfg, units, frames, events);
    hide Answered, Flatten, Fed, PlaceAfter;
    if frames != [] {
      FlattenLonger(frames, 0);
    }
  }

  // If every frame is answered, none waits behind another without an answer that waits too.
  lemma {:induction false} AnsweredNeverStall(cfg: Config, units: set<nat>, frames: seq<Bytes>, events: seq<Event>)
    requires Answered(cfg, units, frames)
    ensures var p := PlaceAfter(cfg, units, frames, events);
            p.waiting || p.k == |frames| || |Fed(events)| < |Flatten(frames[..p.k + 1])|
  {
    hide Handle, AllSafe, Flatten;
    if events == [] {
      if frames != [] {
        FrameAt(cfg, units, frames, 0);
        FlattenSnoc(frames, 0);
      }
    } else {
      AnsweredNeverStall(cfg, units, frames, events[..|events| - 1]);
    }
  }

  // So for answered requests, whenever all bytes are in and no response waits, exactly the responses to all of them
  // have been sent, in order, with exactly their callbacks, and nothing is left over.
  lemma PipelinedRequests(cfg: Config, s0: Srv, frames: seq<Bytes>, events: seq<Event>)
    requires s0.queue == [] && s0.pending.None? && Answered(cfg, s0.units, frames)
    requires Admissible(cfg, s0, events) && Fed(events) == Flatten(frames)
    requires Run(cfg, s0, events).pending.None?
    ensures Sent(cfg, s0, events) == Responses(cfg, s0.units, frames)
    ensures Run(cfg, s0, events) == s0.(calls := s0.calls + CallsFor(cfg, s0.units, frames))
  {
    hide Handle, AllSafe, PlaceAfter, Run, Sent, Fed, Admissible, Flatten, Responses, CallsFor, Stands;
    AnsweredNeverStall(cfg, s0.units, frames, events);
    PipelineExact(cfg, s0, frames, events);
    var p := PlaceAfter(cfg, s0.units, frames, events);
    WaitsOrNot(cfg, s0, frames, Run(cfg, s0, events), Sent(cfg, s0, events), Fed(events), p);
    if p.k < |frames| {
      FlattenLonger(frames, p.k);
    }
    CompleteIff(cfg, s0, frames, events);
  }

  lemma WaitsOrNot(cfg: Config, s0: Srv, frames: seq<Bytes>, s: Srv, sent: seq<Bytes>, fed: Bytes, p: Place)
    requires Stands(cfg, s0, frames, s, sent, fed, p)
    ensures s.pending.Some? == p.waiting
  {
  }

  // A frame behind one that is not answered - a broadcast, or a request for another unit - stays in the queue although
  // it is whole and nothing waits to be sent.
  lemma StallsBehindUnanswered(cfg: Config, s: Srv, f: Bytes, g: Bytes)
    requires s.queue == [] && s.pending.None? && WholeRequest(f) && |f| >= 5 && Safe(cfg, s.units, f)
    requires |f| + |g| <= Free(cfg, s) && Handle(cfg, s.units, f).response.None?
    ensures Feed(cfg, s, f + g) == s.(queue := g, calls := s.calls + Handle(cfg, s.units, f).calls)
    ensures WholeRequest(g) && |g| <= MAX_FRAME ==> TryProcess(cfg, Feed(cfg, s, f + g)).queue == []
  {
    hide Handle, ParseRequest, Safe, OutOfRange;
    OverrunIff(cfg, s.units, f);
    SafeLength(cfg, s.units, f);
    var q := f + g;
    assert s.queue + q == q && q[..|f|] == f && q[|f|..] == g;
    assert f <= View(q);
    RequestPrefixCorrect(f, View(q));
    if WholeRequest(g) && |g| <= MAX_FRAME {
      assert View(g) == g && g[|g|..] == [];
    }
  }

  // How long a frame may be: up to 260 bytes it is taken; a longer one, though whole, is never looked at to its end,
  // and waits for good.
  lemma LongestFrame(cfg: Config, s: Srv, f: Bytes)
    requires s.queue == [] && s.pending.None? && WholeRequest(f) && 5 <= |f| <= Free(cfg, s)
    ensures |f| <= 260 ==>
            var o := Handle(cfg, s.units, f);
            Feed(cfg, s, f) == s.(pending := o.response, calls := s.calls + o.calls, overrun := s.overrun || o.overrun)
    ensures |f| > 260 ==> Feed(cfg, s, f) == s.(queue := f)
  {
    hide Handle, ParseRequest;
    assert s.queue + f == f;
    RequestPrefixCorrect(f, View(f));
    assert |f| <= 260 ==> View(f) == f && f[..|f|] == f && f[|f|..] == [];
    assert |f| > 260 ==> View(f) == f[..260] < f;
  }

  lemma EmptyQueueStays(cfg: Config, s: Srv)
    requires s.queue == [] && s.pending.None?
    ensures ResponseSent(cfg, s) == s
  {
  }
}
