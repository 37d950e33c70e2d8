// The client: a ring of registered requests, linked in place, and the receive accumulator.
module Client {
  import opened Bytes
  import opened Crc
  import opened Framing
  import opened Payload
  import opened Codec
  import Spec = ClientSpec

  // A registered request: its encoded frame is the start of its buffer.
  class Slot {
    var next: Slot
    var prev: Slot
    const buf: array<bv8>
    const len: nat
    const unitId: bv8
    const addr: bv16

    constructor (buf: array<bv8>, len: nat, unitId: bv8, addr: bv16)
      ensures next == this && prev == this
      ensures this.buf == buf && this.len == len && this.unitId == unitId && this.addr == addr
    {
      this.buf := buf;
      this.len := len;
      this.unitId := unitId;
      this.addr := addr;
      next := this;
      prev := this;
    }

    ghost function Request(): Spec.Request
      requires len <= buf.Length
      reads this, buf
    {
      Spec.Request(unitId, addr, buf[..len])
    }
  }

  ghost predicate Distinct(ring: seq<Slot>) {
    forall i, j :: 0 <= i < j < |ring| ==> ring[i] != ring[j]
  }

  function After(i: nat, n: nat): (j: nat)
    requires i < n
    ensures j < n
  {
    if i + 1 == n then 0 else i + 1
  }

  function Before(i: nat, n: nat): (j: nat)
    requires i < n
    ensures j < n
  {
    if i == 0 then n - 1 else i - 1
  }

  // The slots form one cycle in this order.
  ghost predicate Linked(ring: seq<Slot>)
    reads ring
  {
    && Distinct(ring)
    && (forall i {:trigger ring[i].next} :: 0 <= i < |ring| ==> ring[i].next == ring[After(i, |ring|)])
    && (forall i {:trigger ring[i].prev} :: 0 <= i < |ring| ==> ring[i].prev == ring[Before(i, |ring|)])
  }

  // So next and prev are each other's inverses.
  lemma NextAndPrevInvert(ring: seq<Slot>, s: Slot)
    requires Linked(ring) && s in ring
    ensures s.next in ring && s.prev in ring && s.next.prev == s && s.prev.next == s
  {
    var i :| 0 <= i < |ring| && ring[i] == s;
    assert Before(After(i, |ring|), |ring|) == i && After(Before(i, |ring|), |ring|) == i;
  }

  function Without<T>(s: seq<T>, k: nat): (r: seq<T>)
    requires k < |s|
    ensures |r| == |s| - 1
  {
    s[..k] + s[k + 1..]
  }

  // Puts a lone slot before the entry of a ring, which is after its end.
  method LinkLast(ghost ring: seq<Slot>, entry: Slot, slot: Slot)
    requires Linked(ring) && ring != [] && entry == ring[0] && slot !in ring
    modifies slot`next, slot`prev, entry`prev, entry.prev`next
    ensures Linked(ring + [slot])
  {
    ghost var n := |ring|;
    ghost var last := ring[n - 1];
    assert entry.prev == ring[Before(0, n)] == last;
    slot.next := entry;
    slot.prev := entry.prev;
    entry.prev.next := slot;
    entry.prev := slot;
    ghost var r := ring + [slot];
    assert forall i :: 0 <= i < n ==> r[i] == ring[i] && r[i] != slot;
    AfterLast(n);
    hide After, Before;
    forall i | 0 <= i < n + 1 ensures r[i].next == r[After(i, n + 1)] {
      assert i < n - 1 ==> ring[i] != last && r[i].next == old(ring[i].next);
    }
    forall i | 0 <= i < n + 1 ensures r[i].prev == r[Before(i, n + 1)] {
      assert 0 < i < n ==> ring[i] != entry && r[i].prev == old(ring[i].prev);
    }
  }

  lemma AfterLast(n: nat)
    requires n > 0
    ensures forall i :: 0 <= i < n - 1 ==> After(i, n + 1) == After(i, n) == i + 1
    ensures forall i :: 0 < i < n ==> Before(i, n + 1) == Before(i, n) == i - 1
    ensures After(n - 1, n + 1) == n && After(n, n + 1) == 0 && Before(n, n + 1) == n - 1 && Before(0, n + 1) == n
    ensures Before(0, n) == n - 1
  {
  }

  // Takes slot k out of a ring that has another.
  method Unlink(ghost ring: seq<Slot>, ghost k: nat, slot: Slot)
    requires Linked(ring) && k < |ring| && slot == ring[k] && |ring| > 1
    modifies slot.next`prev, slot.prev`next
    ensures Linked(Without(ring, k))
    ensures slot.next == old(slot.next)
  {
    hide After, Before, Without, Distinct;
    NeighboursAt(ring, k);
    WithoutDistinct(ring, k);
    ghost var n, r := |ring|, Without(ring, k);
    ghost var after, before := slot.next, slot.prev;
    slot.next.prev := slot.prev;
    slot.prev.next := slot.next;
    forall i | 0 <= i < n - 1 ensures r[i].next == r[After(i, n - 1)] && r[i].prev == r[Before(i, n - 1)] {
      RelinkedAt(ring, k, i);
      ghost var j := if i < k then i else i + 1;
      assert ring[j].next == if After(j, n) == k then after else old(ring[j].next);
      assert ring[j].prev == if Before(j, n) == k then before else old(ring[j].prev);
    }
  }

  lemma WithoutDistinct(s: seq<Slot>, k: nat)
    requires Distinct(s) && k < |s|
    ensures Distinct(Without(s, k)) && |Without(s, k)| == |s| - 1
  {
  }

  // Where the neighbours of a remaining slot are, once slot k is gone.
  lemma RelinkedAt(s: seq<Slot>, k: nat, i: nat)
    requires k < |s| && i < |s| - 1 && Distinct(s)
    ensures var n, j := |s|, if i < k then i else i + 1;
            && Without(s, k)[i] == s[j]
            && Without(s, k)[After(i, n - 1)] == s[if After(j, n) == k then After(k, n) else After(j, n)]
            && Without(s, k)[Before(i, n - 1)] == s[if Before(j, n) == k then Before(k, n) else Before(j, n)]
            && (s[j] == s[Before(k, n)] <==> After(j, n) == k)
            && (s[j] == s[After(k, n)] <==> Before(j, n) == k)
  {
  }

  // Encodes into the buffer that is given, or else into a new one.
  method NewSlot(p: EncodeParams, dest: array?<bv8>, cap: nat) returns (slot: Slot?)
    requires Encodable(p) && (dest != null ==> cap <= dest.Length)
    modifies dest
    ensures slot != null <==> Adu(Rtu, p).Some? && (dest == null || |Adu(Rtu, p).value| <= cap)
    ensures slot == null && dest != null ==> dest[..] == old(dest[..])
    ensures slot != null ==> fresh(slot) && slot.next == slot == slot.prev
    ensures slot != null ==> if dest == null then fresh(slot.buf) else slot.buf == dest
    ensures slot != null ==> 3 <= slot.len <= slot.buf.Length && slot.buf[..slot.len] == Adu(Rtu, p).value
    ensures slot != null ==> slot.unitId == p.unitId && (p.FromParams? ==> slot.addr == p.addr)
  {
    AduLength(p);
    hide Adu, Encodable;
    var buf, len := Encode(Rtu, p, dest, cap);
    if buf == null || len == 0 {
      return null;
    }
    slot := new Slot(buf, len, p.unitId, if p.FromParams? then p.addr else 0);
  }

  class ModbusClient {
    var slots: Slot?
    var current: Slot?
    var nextTid: bv16
    var txCount: bv32
    var rxCount: bv32
    const recvBuf: array<bv8>
    const recvCap: nat
    var recvLen: nat
    // The completions so far: what the application has seen.
    var done: seq<Spec.Result>
    // Set where an array would be accessed out of range.
    var overrun: bool
    // The ring from `slots` on, in order.
    ghost var ring: seq<Slot>

    ghost predicate Valid()
      reads this, recvBuf, ring
    {
      && recvBuf.Length == recvCap && recvLen <= recvCap
      && Linked(ring) && (if ring == [] then slots == null else slots == ring[0])
      && (current != null ==> current in ring)
      && forall s :: s in ring ==> s.buf != recvBuf && 3 <= s.len <= s.buf.Length
    }

    ghost function Abs(): Spec.Cli
      requires Valid()
      reads this, recvBuf, ring, if current == null then {} else {current.buf}
    {
      Spec.Cli(recvBuf[..recvLen], if current == null then None else Some(current.Request()), rxCount, done, overrun)
    }

    constructor (cap: nat)
      ensures Valid() && fresh(recvBuf) && ring == [] && current == null
      ensures recvCap == if cap == 0 then MAX_FRAME else cap
      ensures Abs() == Spec.Cli([], None, 0, [], false)
    {
      var n := if cap == 0 then MAX_FRAME else cap;
      recvBuf := new bv8[n];
      recvCap := n;
      recvLen := 0;
      slots, current := null, null;
      nextTid, txCount, rxCount := 0, 0, 0;
      done, overrun := [], false;
      ring := [];
    }

    // -------------------------------------------------------------------------------------------------------------
    // The ring of requests.

    // A new request goes to the end of the ring; one that cannot be encoded, or not into the buffer given for it, is
    // refused.
    method Register(p: EncodeParams, dest: array?<bv8>, cap: nat) returns (slot: Slot?)
      requires Valid() && Encodable(p) && (dest != null ==> cap <= dest.Length && dest != recvBuf)
      modifies this`slots, this`ring, dest, if slots == null then {} else {slots, slots.prev}
      ensures Valid()
      ensures slot != null <==> Adu(Rtu, p).Some? && (dest == null || |Adu(Rtu, p).value| <= cap)
      ensures slot == null ==> ring == old(ring) && (dest != null ==> dest[..] == old(dest[..]))
      ensures slot != null ==> fresh(slot) && ring == old(ring) + [slot]
      ensures slot != null ==> if dest == null then fresh(slot.buf) else slot.buf == dest
      ensures slot != null ==> slot.unitId == p.unitId && slot.buf[..slot.len] == Adu(Rtu, p).value
      ensures slot != null && p.FromParams? ==> slot.addr == p.addr
    {
      hide Adu, Encodable, Linked;
      slot := NewSlot(p, dest, cap);
      if slot != null {
        Attach(slot);
      }
    }

    method Attach(slot: Slot)
      requires Valid() && slot !in ring && slot.next == slot == slot.prev
      requires slot.buf != recvBuf && 3 <= slot.len <= slot.buf.Length
      modifies this`slots, this`ring, slot, if slots == null then {} else {slots, slots.prev}
      ensures Valid() && ring == old(ring) + [slot]
    {
      hide Distinct, After, Before;
      if slots == null {
        slots := slot;
        LoneRing(slot);
        assert ring + [slot] == [slot];
      } else {
        NeighboursAt(ring, 0);
        LinkLast(ring, slots, slot);
      }
      ring := ring + [slot];
    }

    // A live request leaves the ring, and is no longer the one awaited.
    method Remove(slot: Slot, ghost k: nat)
      requires Valid() && k < |ring| && ring[k] == slot
      modifies this`slots, this`current, this`ring, slot.next, slot.prev
      ensures Valid() && ring == Without(old(ring), k)
      ensures current == if old(current) == slot then null else old(current)
    {
      hide After, Before, Without;
      NeighboursAt(ring, k);
      WithoutEntry(ring, k);
      if slot.next == slot {
        slots := null;
      } else {
        Unlink(ring, k, slot);
        if slots == slot {
          slots := slot.next;
        }
      }
      if current == slot {
        current := null;
      }
      WithoutMembers(ring, k);
      ring := Without(ring, k);
    }

    // Every slot is freed once, in ring order, and none is looked at after it is freed.
    method Destroy() returns (freed: seq<Slot>)
      requires Valid()
      ensures freed == ring
    {
      freed := [];
      if slots == null {
        return;
      }
      var start := slots;
      var node := start;
      var more := true;
      while more
        invariant |freed| <= |ring| && freed == ring[..|freed|]
        invariant more ==> |freed| < |ring| && node == ring[|freed|]
        invariant !more ==> |freed| == |ring|
        decreases |ring| - |freed|, more
      {
        assert node !in freed;
        var next := node.next;
        assert next == ring[After(|freed|, |ring|)];
        freed := freed + [node];
        node := next;
        more := node != start;
      }
    }

    // -------------------------------------------------------------------------------------------------------------
    // Requests and responses.

    // Awaits the response to a request, and hands out the frame to send.
    method Request(slot: Slot) returns (frame: Bytes)
      requires Valid() && slot in ring
      modifies this`current, this`recvLen, this`nextTid, this`txCount
      ensures Valid() && frame == slot.buf[..slot.len]
      ensures Abs() == old(Abs()).(recv := [], current := Some(slot.Request()))
      ensures nextTid == old(nextTid) + 1 && txCount == old(txCount) + 1
    {
      current := slot;
      recvLen := 0;
      nextTid := nextTid + 1;
      txCount := txCount + 1;
      return slot.buf[..slot.len];
    }

    method HandleFrame()
      requires Valid() && current != null && recvLen >= 5 && ValidFrame(recvBuf[..recvLen])
      modifies this`rxCount, this`done, this`overrun
      ensures Valid()
      ensures var c := old(Abs()).(rxCount := old(rxCount) + 1);
              Abs() == if recvLen > MAX_ADU then c.(overrun := true)
                       else c.(done := old(done) + [Spec.Complete(current.Request(), recvBuf[..recvLen])])
    {
      hide ValidFrame, Spec.Complete;
      var slot := current;
      rxCount := rxCount + 1;
      var fits, regs := Interpret(slot);
      if !fits {
        overrun := true;
        return;
      }
      done := done + [Spec.Result(slot.unitId, slot.addr, regs)];
      CompleteIs(slot.Request(), recvBuf[..recvLen]);
    }

    // The registers of the response, if it succeeds. `fits` is whether the PDU array holds it.
    method Interpret(slot: Slot) returns (fits: bool, regs: Option<seq<bv16>>)
      requires Valid() && slot in ring && recvLen >= 5 && ValidFrame(recvBuf[..recvLen])
      ensures fits <==> recvLen <= MAX_ADU
      ensures fits ==> regs == Spec.Complete(slot.Request(), recvBuf[..recvLen]).regs
    {
      hide ParseReadPdu, ValidFrame;
      var pdu := new bv8[MAX_PDU];
      var ok, tooLong, unitId, pduLen := DecodeFrame(Rtu, recvBuf, recvLen, pdu);
      if tooLong {
        return false, None;
      }
      if !ok || unitId != slot.unitId {
        return true, None;
      }
      assert |pdu[..pduLen]| == recvLen - 3;
      var out := new bv16[Spec.MAX_REGS];
      var n := ParseRead(pdu, pduLen, slot.buf[1], out);
      if n < 0 {
        return true, None;
      }
      return true, Some(out[..n]);
    }

    // The common tail of the two ways in.
    method Receive()
      requires Valid() && current != null
      modifies this`recvLen, this`rxCount, this`done, this`overrun
      ensures Valid() && Abs() == Spec.Receive(old(Abs()))
    {
      hide Spec.Complete, ParseResponse, ValidFrame;
      ReadyIsValid(recvBuf[..recvLen]);
      match ParseResponse(recvBuf[..recvLen])
      case NeedMore =>
      case FrameError =>
        recvLen := 0;
      case Ready(n) =>
        assert recvBuf[..recvLen][..n] == recvBuf[..n];
        recvLen := n;
        HandleFrame();
    }

    method Feed(data: Bytes)
      requires Valid()
      modifies recvBuf, this`recvLen, this`rxCount, this`done, this`overrun
      ensures Valid() && Abs() == Spec.Take(recvCap, old(Abs()), data)
    {
      hide Spec.Receive;
      if |data| == 0 || current == null {
        return;
      }
      if |data| > recvCap - recvLen {
        recvLen := 0;
        return;
      }
      ghost var before := recvBuf[..recvLen];
      Store(recvBuf, recvLen, data);
      recvLen := recvLen + |data|;
      assert recvBuf[..recvLen] == before + data;
      Receive();
    }

    // The space the transport may fill: an offset into recvBuf, and how many bytes.
    method Reserve() returns (off: nat, avail: nat)
      requires Valid()
      ensures current == null ==> avail == 0
      ensures current != null ==> off == recvLen && off + avail == recvCap
    {
      if current == null {
        return 0, 0;
      }
      return recvLen, recvCap - recvLen;
    }

    method Commit(n: nat)
      requires Valid()
      modifies this`recvLen, this`rxCount, this`done, this`overrun
      ensures Valid()
      ensures old(recvLen) + n <= recvCap ==>
              Abs() == Spec.Take(recvCap, old(Abs()), recvBuf[old(recvLen)..old(recvLen) + n])
      ensures old(recvLen) + n > recvCap ==> Abs() == if current == null then old(Abs()) else old(Abs()).(recv := [])
    {
      hide Spec.Receive;
      if n == 0 || current == null {
        return;
      }
      if recvLen + n > recvCap {
        recvLen := 0;
        return;
      }
      recvLen := recvLen + n;
      assert recvBuf[..recvLen] == recvBuf[..old(recvLen)] + recvBuf[old(recvLen)..recvLen];
      Receive();
    }

    // The zero-copy path of a poll callback: reserve, let the transport read what fits, commit.
    method PollRead(incoming: Bytes) returns (n: nat)
      requires Valid()
      modifies recvBuf, this`recvLen, this`rxCount, this`done, this`overrun
      ensures Valid() && n <= |incoming| && Abs() == Spec.Take(recvCap, old(Abs()), incoming[..n])
      ensures n == 0 ==> Abs() == old(Abs())
      ensures n == if current == null then 0 else Min(recvCap - old(recvLen), |incoming|)
    {
      hide Spec.Receive;
      var off, avail := Reserve();
      n := Min(avail, |incoming|);
      if n == 0 {
        return;
      }
      ghost var before := recvBuf[..recvLen];
      Store(recvBuf, off, incoming[..n]);
      assert recvBuf[..recvLen] == before;
      assert recvBuf[recvLen..recvLen + n] == incoming[..n];
      Commit(n);
    }
  }

  lemma LoneRing(slot: Slot)
    requires slot.next == slot == slot.prev
    ensures Linked([slot])
  {
  }

  lemma NeighboursAt(ring: seq<Slot>, k: nat)
    requires Linked(ring) && k < |ring|
    ensures ring[k].next == ring[After(k, |ring|)] && ring[k].prev == ring[Before(k, |ring|)]
    ensures ring[k].next == ring[k] <==> |ring| == 1
    ensures ring[k].next in ring && ring[k].prev in ring
  {
    assert ring[k].next == ring[After(k, |ring|)];
  }

  lemma WithoutEntry(ring: seq<Slot>, k: nat)
    requires k < |ring|
    ensures |ring| == 1 ==> Without(ring, k) == [] && k == 0
    ensures |ring| > 1 ==> Without(ring, k)[0] == ring[if k == 0 then 1 else 0] && After(0, |ring|) == 1
  {
  }

  lemma WithoutMembers(ring: seq<Slot>, k: nat)
    requires Distinct(ring) && k < |ring|
    ensures forall s :: s in Without(ring, k) <==> s in ring && s != ring[k]
  {
    forall s ensures s in Without(ring, k) <==> s in ring && s != ring[k] {
      if s in ring && s != ring[k] {
        var i :| 0 <= i < |ring| && ring[i] == s;
        assert Without(ring, k)[if i < k then i else i - 1] == s;
      }
    }
  }

  lemma AduLength(p: EncodeParams)
    requires Encodable(p)
    ensures Adu(Rtu, p).Some? ==> |Adu(Rtu, p).value| >= 3
  {
  }

  lemma ReadyIsValid(buf: Bytes)
    ensures ParseResponse(buf).Ready? ==> ValidFrame(buf[..ParseResponse(buf).frameLen])
  {
    hide ValidFrame;
  }

  lemma CompleteIs(req: Spec.Request, frame: Bytes)
    requires |req.frame| >= 2 && |frame| >= 5
    ensures Spec.Complete(req, frame) == Spec.Result(req.unitId, req.addr, Spec.Complete(req, frame).regs)
  {
  }
}
