// The persistence pipe: a producer that enqueues 32-byte items, a consumer thread that stores them, and the shutdown,
// as a transition system over interleaved steps.
module Persist {
  import opened Bytes

  const ITEM_SIZE := 32
  const TABLE_SIZE := 16
  const PAD_SIZE := 10
  const BATCH := 64
  const PIPE_CAP := 65536

  // ---------------------------------------------------------------------------------------------------------------
  // Items and their bytes.

  datatype Item = Item(table: Bytes, deviceId: bv16, regAddr: bv16, value: bv16)

  predicate WellFormed(i: Item) {
    |i.table| == TABLE_SIZE && i.table[TABLE_SIZE - 1] == 0
  }

  function Zeros(n: nat): Bytes {
    seq(n, _ => 0)
  }

  // The table name, cut to fifteen characters and filled up with zeros.
  function MakeItem(table: Bytes, deviceId: bv16, regAddr: bv16, value: bv16): (i: Item)
    ensures WellFormed(i)
  {
    var n := Min(|table|, TABLE_SIZE - 1);
    Item(table[..n] + Zeros(TABLE_SIZE - n), deviceId, regAddr, value)
  }

  // The struct in memory, on a little-endian host.
  function ItemBytes(i: Item): (b: Bytes)
    requires WellFormed(i)
    ensures |b| == ITEM_SIZE
  {
    i.table + [Lo(i.deviceId), Hi(i.deviceId), Lo(i.regAddr), Hi(i.regAddr), Lo(i.value), Hi(i.value)]
    + Zeros(PAD_SIZE)
  }

  function ItemAt(b: Bytes): Item
    requires |b| == ITEM_SIZE
  {
    Item(b[..TABLE_SIZE], Word(b[17], b[16]), Word(b[19], b[18]), Word(b[21], b[20]))
  }

  // What the consumer takes a batch of bytes for: the whole items in it.
  function ItemsOf(b: Bytes): seq<Item>
    decreases |b|
  {
    if |b| < ITEM_SIZE then [] else [ItemAt(b[..ITEM_SIZE])] + ItemsOf(b[ITEM_SIZE..])
  }

  function AllBytes(items: seq<Item>): (b: Bytes)
    requires forall i :: 0 <= i < |items| ==> WellFormed(items[i])
    ensures |b| == ITEM_SIZE * |items|
  {
    if items == [] then [] else ItemBytes(items[0]) + AllBytes(items[1..])
  }

  lemma ItemRoundTrip(i: Item)
    requires WellFormed(i)
    ensures ItemAt(ItemBytes(i)) == i
  {
    hide Lo, Hi, Word;
    WordOfBytes(i.deviceId);
    WordOfBytes(i.regAddr);
    WordOfBytes(i.value);
    assert ItemBytes(i)[..TABLE_SIZE] == i.table;
  }

  lemma {:induction false} ItemsRoundTrip(items: seq<Item>)
    requires forall i :: 0 <= i < |items| ==> WellFormed(items[i])
    ensures ItemsOf(AllBytes(items)) == items
  {
    hide ItemBytes, ItemAt;
    if items != [] {
      ItemRoundTrip(items[0]);
      ItemsRoundTrip(items[1..]);
      var b := AllBytes(items);
      assert b[..ITEM_SIZE] == ItemBytes(items[0]) && b[ITEM_SIZE..] == AllBytes(items[1..]);
    }
  }

  // The bytes of a queue of items split at item boundaries.
  lemma {:induction false} AllBytesSplit(items: seq<Item>, k: nat)
    requires k <= |items| && forall i :: 0 <= i < |items| ==> WellFormed(items[i])
    ensures AllBytes(items)[..ITEM_SIZE * k] == AllBytes(items[..k])
    ensures AllBytes(items)[ITEM_SIZE * k..] == AllBytes(items[k..])
  {
    hide ItemBytes;
    if k > 0 {
      AllBytesSplit(items[1..], k - 1);
      assert items[..k][1..] == items[1..][..k - 1] && items[k..] == items[1..][k - 1..];
      var head, rest := ItemBytes(items[0]), AllBytes(items[1..]);
      assert (head + rest)[..ITEM_SIZE * k] == head + rest[..ITEM_SIZE * (k - 1)];
      assert (head + rest)[ITEM_SIZE * k..] == rest[ITEM_SIZE * (k - 1)..];
    } else {
      assert items[0..] == items;
    }
  }

  lemma {:induction false} AllBytesSnoc(items: seq<Item>, x: Item)
    requires WellFormed(x) && forall i :: 0 <= i < |items| ==> WellFormed(items[i])
    ensures AllBytes(items + [x]) == AllBytes(items) + ItemBytes(x)
  {
    hide ItemBytes;
    if items == [] {
      assert [x][1..] == [] && items + [x] == [x];
    } else {
      AllBytesSnoc(items[1..], x);
      assert (items + [x])[1..] == items[1..] + [x];
    }
  }

  // ---------------------------------------------------------------------------------------------------------------
  // The store: one value for each table, device and register.

  type Key = (Bytes, bv16, bv16)
  type Db = map<Key, bv16>

  // The text that a zero-terminated buffer holds.
  function CString(b: Bytes): Bytes {
    if b == [] || b[0] == 0 then [] else [b[0]] + CString(b[1..])
  }

  function KeyOf(i: Item): Key {
    (CString(i.table), i.deviceId, i.regAddr)
  }

  lemma {:induction false} CStringOfPadded(name: Bytes, n: nat)
    requires n > 0 && forall i :: 0 <= i < |name| ==> name[i] != 0
    ensures CString(name + Zeros(n)) == name
  {
    var b := name + Zeros(n);
    if name != [] {
      CStringOfPadded(name[1..], n);
      assert b[1..] == name[1..] + Zeros(n);
    }
  }

  // The key that an item is stored under has the table name it was enqueued with exactly if that has at most fifteen
  // characters.
  lemma KeyKeepsName(table: Bytes, deviceId: bv16, regAddr: bv16, value: bv16)
    requires forall i :: 0 <= i < |table| ==> table[i] != 0
    ensures KeyOf(MakeItem(table, deviceId, regAddr, value)) == (table, deviceId, regAddr) <==> |table| <= 15
    ensures KeyOf(MakeItem(table, deviceId, regAddr, value)) == (table[..Min(|table|, 15)], deviceId, regAddr)
    ensures MakeItem(table, deviceId, regAddr, value).value == value
  {
    var n := Min(|table|, TABLE_SIZE - 1);
    CStringOfPadded(table[..n], TABLE_SIZE - n);
    assert |table| <= 15 ==> table[..n] == table;
  }

  function PutAll(db: Db, items: seq<Item>): Db {
    if items == [] then db
    else PutAll(db, items[..|items| - 1])[KeyOf(items[|items| - 1]) := items[|items| - 1].value]
  }

  // INSERT OR REPLACE of a zero for every row of a point table.
  function FullDump(db: Db, name: Bytes, rows: set<(bv16, bv16)>): Db {
    db + map row: (bv16, bv16) | row in rows :: (name, row.0, row.1) := 0
  }

  // For every key the last write wins, and nothing else is stored or forgotten.
  lemma {:induction false} LastWriteWins(db: Db, items: seq<Item>, key: Key)
    ensures key in PutAll(db, items) <==> key in db || exists i :: 0 <= i < |items| && KeyOf(items[i]) == key
    ensures forall i :: 0 <= i < |items| && KeyOf(items[i]) == key
                        && (forall j :: i < j < |items| ==> KeyOf(items[j]) != key) ==>
                          PutAll(db, items)[key] == items[i].value
    ensures key in db && (forall i :: 0 <= i < |items| ==> KeyOf(items[i]) != key) ==>
              key in PutAll(db, items) && PutAll(db, items)[key] == db[key]
  {
    hide KeyOf;
    if items != [] {
      var n := |items| - 1;
      LastWriteWins(db, items[..n], key);
      assert forall i :: 0 <= i < n ==> items[..n][i] == items[i];
      assert KeyOf(items[n]) in PutAll(db, items);
    }
  }

  lemma {:induction false} PutAllConcat(db: Db, a: seq<Item>, b: seq<Item>)
    ensures PutAll(db, a + b) == PutAll(PutAll(db, a), b)
  {
    hide KeyOf;
    if b == [] {
      assert a + b == a;
    } else {
      var n := |b| - 1;
      PutAllConcat(db, a, b[..n]);
      assert (a + b)[..|a + b| - 1] == a + b[..n];
    }
  }

  // ---------------------------------------------------------------------------------------------------------------
  // The two threads.

  datatype Pc = Opening | Checking | Polling | Reading | Draining | Finished

  // `work` is the store as the consumer's transaction sees it, `disk` what has been committed. The last four fields
  // are history: what was enqueued, what was put, how much of that is durable, and whether a read in the final drain
  // failed.
  datatype Sys = Sys(pipe: Bytes, running: bool, writeOpen: bool, pc: Pc, work: Db, disk: Db,
                     enqueued: seq<Item>, puts: seq<Item>, durable: nat, readFailed: bool, drainFailed: bool)

  datatype Event =
    | Enqueue(item: Item) | RequestStop | CloseWriteEnd          // the producer
    | Dump | CheckRunning | PollReady | PollIdle | PollError     // the consumer
    | Read | EndOfFile | ReadError

  datatype Tables = Tables(southbound: set<(bv16, bv16)>, northbound: set<(bv16, bv16)>, south: Bytes, north: Bytes)

  function Dumped(t: Tables, db: Db): Db {
    FullDump(FullDump(db, t.south, t.southbound), t.north, t.northbound)
  }

  // The initial dump: every row of the two point tables is 0, and nothing else changes.
  lemma DumpedExactly(t: Tables, db: Db, key: Key)
    ensures var row := (key.1, key.2);
            var dumped := (key.0 == t.south && row in t.southbound) || (key.0 == t.north && row in t.northbound);
            && (key in Dumped(t, db) <==> dumped || key in db)
            && (key in Dumped(t, db) ==> Dumped(t, db)[key] == if dumped then 0 else db[key])
  {
  }

  predicate IsReading(s: Sys) {
    s.pc == Reading || s.pc == Draining
  }

  ghost predicate Enabled(s: Sys, e: Event) {
    match e
    case Enqueue(item) => WellFormed(item) && (s.running ==> |s.pipe| + ITEM_SIZE <= PIPE_CAP)
    case RequestStop => true
    case CloseWriteEnd => !s.running
    case Dump => s.pc == Opening
    case CheckRunning => s.pc == Checking
    case PollReady => s.pc == Polling && s.pipe != []
    case PollIdle => s.pc == Polling && s.pipe == []
    case PollError => s.pc == Polling
    case Read => IsReading(s) && s.pipe != []
    case EndOfFile => IsReading(s) && s.pipe == [] && !s.writeOpen
    case ReadError => IsReading(s)
  }

  // Leaving the read loop: the transaction commits.
  function LeaveReading(s: Sys): Sys {
    s.(disk := s.work, durable := |s.puts|, pc := if s.pc == Reading then Checking else Finished)
  }

  function Step(t: Tables, s: Sys, e: Event): Sys {
    match e
    case Enqueue(item) =>
      if s.running && WellFormed(item) then s.(pipe := s.pipe + ItemBytes(item), enqueued := s.enqueued + [item]) else s
    case RequestStop => s.(running := false)
    case CloseWriteEnd => s.(writeOpen := false)
    case Dump => var db := Dumped(t, s.work); s.(work := db, disk := db, pc := Checking)
    case CheckRunning => s.(pc := if s.running then Polling else Draining)
    case PollReady => s.(pc := Reading)
    case PollIdle => s.(disk := s.work, durable := |s.puts|, pc := Checking)
    case PollError => s.(pc := Draining)
    case Read =>
      var n := Min(|s.pipe|, BATCH * ITEM_SIZE);
      var items := ItemsOf(s.pipe[..n]);
      s.(pipe := s.pipe[n..], work := PutAll(s.work, items), puts := s.puts + items)
    case EndOfFile => LeaveReading(s)
    case ReadError => LeaveReading(s).(readFailed := true, drainFailed := s.drainFailed || s.pc == Draining)
  }

  predicate Init(s: Sys, db: Db) {
    s == Sys([], true, true, Opening, db, db, [], [], 0, false, false)
  }

  ghost predicate IsRun(t: Tables, s: Sys, events: seq<Event>)
    decreases |events|
  {
    events == [] || (Enabled(s, events[0]) && IsRun(t, Step(t, s, events[0]), events[1..]))
  }

  function End(t: Tables, s: Sys, events: seq<Event>): Sys
    decreases |events|
  {
    if events == [] then s else End(t, Step(t, s, events[0]), events[1..])
  }

  // ---------------------------------------------------------------------------------------------------------------
  // What every interleaving keeps.

  ghost predicate AllWellFormed(items: seq<Item>) {
    forall i :: 0 <= i < |items| ==> WellFormed(items[i])
  }

  // The puts and the items still in the pipe, in order, are the items enqueued. The pipe holds whole items.
  ghost predicate Conserved(s: Sys) {
    && AllWellFormed(s.enqueued)
    && |s.puts| <= |s.enqueued| && s.puts == s.enqueued[..|s.puts|]
    && s.pipe == AllBytes(s.enqueued[|s.puts|..])
    && |s.pipe| <= PIPE_CAP
  }

  // The transaction has every put; the disk has the durable ones.
  ghost predicate Stored(t: Tables, db: Db, s: Sys) {
    if s.pc == Opening then s.work == s.disk == db && s.puts == [] && s.durable == 0
    else
      && s.durable <= |s.puts|
      && s.work == PutAll(Dumped(t, db), s.puts)
      && s.disk == PutAll(Dumped(t, db), s.puts[..s.durable])
      && (s.pc == Checking || s.pc == Polling || s.pc == Finished ==> s.durable == |s.puts|)
  }

  ghost predicate Control(s: Sys) {
    && (!s.writeOpen ==> !s.running)
    && (s.pc == Finished && !s.drainFailed ==> s.pipe == [] && !s.writeOpen)
    && (s.drainFailed ==> s.readFailed)
    && (s.writeOpen && !s.readFailed ==> s.durable == 0)
    && (s.writeOpen && !s.readFailed && (s.pc == Checking || s.pc == Polling) ==> s.puts == [])
  }

  ghost predicate Inv(t: Tables, db: Db, s: Sys) {
    Conserved(s) && Stored(t, db, s) && Control(s)
  }

  lemma EnqueueStep(s: Sys, item: Item, t: Tables)
    requires Conserved(s) && Enabled(s, Enqueue(item))
    ensures Conserved(Step(t, s, Enqueue(item)))
  {
    hide ItemBytes;
    if s.running {
      var rest := s.enqueued[|s.puts|..];
      AllBytesSnoc(rest, item);
      assert (s.enqueued + [item])[|s.puts|..] == rest + [item];
    }
  }

  // A read takes whole items only, and takes at least one.
  lemma ReadStep(t: Tables, s: Sys)
    requires Conserved(s) && s.pipe != []
    ensures Conserved(Step(t, s, Read)) && |Step(t, s, Read).pipe| < |s.pipe|
    ensures var items := ItemsOf(s.pipe[..Min(|s.pipe|, BATCH * ITEM_SIZE)]);
            s.puts + items == s.enqueued[..|s.puts| + |items|] && |items| > 0
  {
    hide ItemBytes, ItemAt, PutAll, ItemsOf;
    var rest := s.enqueued[|s.puts|..];
    var k := Min(|rest|, BATCH);
    assert Min(|s.pipe|, BATCH * ITEM_SIZE) == ITEM_SIZE * k;
    AllBytesSplit(rest, k);
    ItemsRoundTrip(rest[..k]);
    assert s.enqueued[..|s.puts| + k] == s.puts + rest[..k];
    assert s.enqueued[|s.puts| + k..] == rest[k..];
  }

  lemma ConservedStep(t: Tables, s: Sys, e: Event)
    requires Conserved(s) && Enabled(s, e)
    ensures Conserved(Step(t, s, e))
  {
    hide ItemBytes, ItemsOf, Dumped, AllBytes, PutAll;
    match e
    case Enqueue(item) => EnqueueStep(s, item, t);
    case Read => ReadStep(t, s);
    case _ =>
  }

  lemma StoredRead(t: Tables, db: Db, s: Sys)
    requires Stored(t, db, s) && Enabled(s, Read)
    ensures Stored(t, db, Step(t, s, Read))
  {
    hide ItemBytes, ItemsOf, Dumped, PutAll;
    var items := ItemsOf(s.pipe[..Min(|s.pipe|, BATCH * ITEM_SIZE)]);
    PutAllConcat(Dumped(t, db), s.puts, items);
    assert (s.puts + items)[..s.durable] == s.puts[..s.durable];
  }

  lemma StoredStep(t: Tables, db: Db, s: Sys, e: Event)
    requires Stored(t, db, s) && Enabled(s, e)
    ensures Stored(t, db, Step(t, s, e))
  {
    hide ItemBytes, ItemsOf, Dumped, PutAll;
    assert s.puts[..|s.puts|] == s.puts;
    match e
    case Read => StoredRead(t, db, s);
    case Dump =>
      NothingPut(Dumped(t, db));
      assert s.puts[..0] == [];
    case _ =>
  }

  lemma ControlStep(t: Tables, db: Db, s: Sys, e: Event)
    requires Control(s) && Stored(t, db, s) && Enabled(s, e)
    ensures Control(Step(t, s, e))
  {
    hide ItemBytes, ItemsOf, Dumped, PutAll;
  }

  lemma StepInvariant(t: Tables, db: Db, s: Sys, e: Event)
    requires Inv(t, db, s) && Enabled(s, e)
    ensures Inv(t, db, Step(t, s, e))
  {
    hide Conserved, Stored, Control, Enabled, Step;
    ConservedStep(t, s, e);
    StoredStep(t, db, s, e);
    ControlStep(t, db, s, e);
  }

  lemma {:induction false} RunInvariant(t: Tables, db: Db, s: Sys, events: seq<Event>)
    requires Inv(t, db, s) && IsRun(t, s, events)
    ensures Inv(t, db, End(t, s, events))
    decreases |events|
  {
    hide Inv, Step, Enabled;
    if events != [] {
      StepInvariant(t, db, s, events[0]);
      RunInvariant(t, db, Step(t, s, events[0]), events[1..]);
    }
  }

  lemma InitInvariant(t: Tables, db: Db, s: Sys)
    requires Init(s, db)
    ensures Inv(t, db, s)
  {
  }

  // ---------------------------------------------------------------------------------------------------------------
  // What the events alone say: the items handed over before the producer asked to stop.

  function Accepted(events: seq<Event>): seq<Item> {
    if events == [] then []
    else
      match events[0]
      case RequestStop => []
      case Enqueue(item) => [item] + Accepted(events[1..])
      case _ => Accepted(events[1..])
  }

  lemma StepTells(t: Tables, s: Sys, e: Event)
    requires Enabled(s, e)
    ensures var s' := Step(t, s, e);
            && s'.enqueued == s.enqueued + (if s.running && e.Enqueue? then [e.item] else [])
            && (s'.running <==> s.running && e != RequestStop)
            && (s'.writeOpen <==> s.writeOpen && e != CloseWriteEnd)
            && (s'.readFailed <==> s.readFailed || e == ReadError)
            && (s'.pc == Opening <==> s.pc == Opening && e != Dump)
  {
    hide ItemBytes, ItemsOf, Dumped, PutAll, WellFormed;
  }

  lemma {:induction false} EnqueuedIsAccepted(t: Tables, s: Sys, events: seq<Event>)
    requires IsRun(t, s, events)
    ensures End(t, s, events).enqueued == s.enqueued + if s.running then Accepted(events) else []
    decreases |events|
  {
    hide Step, Enabled;
    if events != [] {
      StepTells(t, s, events[0]);
      EnqueuedIsAccepted(t, Step(t, s, events[0]), events[1..]);
    }
  }

  // The flags are what the events have made of them.
  lemma {:induction false} FlagsTell(t: Tables, s: Sys, events: seq<Event>)
    requires IsRun(t, s, events)
    ensures var e := End(t, s, events);
            && (e.running <==> s.running && RequestStop !in events)
            && (e.writeOpen <==> s.writeOpen && CloseWriteEnd !in events)
            && (e.readFailed <==> s.readFailed || ReadError in events)
            && (e.pc == Opening <==> s.pc == Opening && Dump !in events)
    decreases |events|
  {
    hide Step, Enabled;
    if events != [] {
      StepTells(t, s, events[0]);
      FlagsTell(t, Step(t, s, events[0]), events[1..]);
      assert events == [events[0]] + events[1..];
    }
  }

  // Under every interleaving: the items put and the items in the pipe are the items accepted, in order; and when the
  // consumer has finished without a failing read in its final drain, the disk is the initial dump overwritten by all
  // items that were handed over before the stop.
  lemma NothingIsLost(t: Tables, db: Db, s: Sys, events: seq<Event>)
    requires Init(s, db) && IsRun(t, s, events)
    ensures var e := End(t, s, events);
            && Accepted(events) == e.puts + ItemsOf(e.pipe) && |e.pipe| % ITEM_SIZE == 0
            && (Dump in events ==> e.work == PutAll(Dumped(t, db), e.puts))
            && (e.pc == Finished && !e.drainFailed ==> e.disk == PutAll(Dumped(t, db), Accepted(events)))
            && (e.pc == Finished ==> (e.puts == Accepted(events) <==> e.pipe == []))
            && (ReadError !in events ==> !e.drainFailed)
  {
    EnqueuedIsAccepted(t, s, events);
    FlagsTell(t, s, events);
    assert s.running && s.enqueued == [] && !s.readFailed && s.pc == Opening;
    hide Inv, ItemsOf, Dumped, PutAll, End, IsRun, Init, Accepted;
    InitInvariant(t, db, s);
    RunInvariant(t, db, s, events);
    InvariantMeans(t, db, End(t, s, events));
  }

  lemma InvariantMeans(t: Tables, db: Db, e: Sys)
    requires Inv(t, db, e)
    ensures e.enqueued == e.puts + ItemsOf(e.pipe) && |e.pipe| % ITEM_SIZE == 0
    ensures e.pc == Finished && !e.drainFailed ==> e.disk == PutAll(Dumped(t, db), e.enqueued)
    ensures e.puts == e.enqueued <==> e.pipe == []
    ensures e.pc != Opening ==> e.work == PutAll(Dumped(t, db), e.puts)
    ensures e.drainFailed ==> e.readFailed
  {
    hide ItemsOf, ItemBytes, Dumped, PutAll, AllBytes;
    var rest := e.enqueued[|e.puts|..];
    ItemsRoundTrip(rest);
    assert e.enqueued == e.puts + rest;
    assert e.puts[..|e.puts|] == e.puts;
    assert rest == [] <==> e.puts == e.enqueued;
  }

  // So the last value handed over for a key before the stop is the one on the disk, under the name it was given.
  lemma LastValueStored(t: Tables, db: Db, s: Sys, events: seq<Event>, i: nat, name: Bytes, deviceId: bv16,
                        regAddr: bv16, value: bv16)
    requires Init(s, db) && IsRun(t, s, events) && ReadError !in events && End(t, s, events).pc == Finished
    requires |name| <= 15 && (forall k :: 0 <= k < |name| ==> name[k] != 0)
    requires i < |Accepted(events)| && Accepted(events)[i] == MakeItem(name, deviceId, regAddr, value)
    requires forall j :: i < j < |Accepted(events)| ==> KeyOf(Accepted(events)[j]) != (name, deviceId, regAddr)
    ensures var key, disk := (name, deviceId, regAddr), End(t, s, events).disk;
            key in disk && disk[key] == value
  {
    hide ItemsOf, Dumped, PutAll, End, IsRun, Init, Accepted, KeyOf, MakeItem;
    NothingIsLost(t, db, s, events);
    KeyKeepsName(name, deviceId, regAddr, value);
    LastWriteWins(Dumped(t, db), Accepted(events), (name, deviceId, regAddr));
  }

  // The read in the batch loop blocks while the pipe is empty and open, so the loop is left, and the transaction
  // committed, only at the end of the file: until the write end is closed nothing but the dump is durable.
  lemma DurableOnlyAfterStop(t: Tables, db: Db, s: Sys, events: seq<Event>)
    requires Init(s, db) && IsRun(t, s, events)
    ensures var e := End(t, s, events);
            CloseWriteEnd !in events && ReadError !in events ==>
              e.writeOpen && e.disk == if Dump in events then Dumped(t, db) else db
  {
    FlagsTell(t, s, events);
    assert s.writeOpen && !s.readFailed && s.pc == Opening;
    hide IsRun, End, Accepted, ItemsOf, PutAll, Dumped;
    InitInvariant(t, db, s);
    RunInvariant(t, db, s, events);
  }

  // ---------------------------------------------------------------------------------------------------------------
  // The consumer finishes once the write end is closed.

  function Rank(s: Sys): nat {
    |s.pipe| + match s.pc
    case Opening => 6 case Polling => 5 case Reading => 4 case Checking => 3 case Draining => 2 case Finished => 0
  }

  predicate IsConsumer(e: Event) {
    !e.Enqueue? && !e.RequestStop? && !e.CloseWriteEnd?
  }

  function NextConsumerEvent(s: Sys): Event {
    match s.pc
    case Opening => Dump
    case Checking => CheckRunning
    case Polling => if s.pipe == [] then PollIdle else PollReady
    case _ => if s.pipe == [] then EndOfFile else Read
  }

  lemma ShutdownProgress(t: Tables, db: Db, s: Sys, e: Event)
    requires Inv(t, db, s) && !s.writeOpen && Enabled(s, e)
    ensures IsConsumer(e) ==> Rank(Step(t, s, e)) < Rank(s)
    ensures !IsConsumer(e) ==> Step(t, s, e) == s
    ensures s.pc != Finished ==> Enabled(s, NextConsumerEvent(s)) && IsConsumer(NextConsumerEvent(s))
  {
    hide ItemBytes, ItemsOf, Dumped, PutAll, AllBytes;
    if e == Read {
      ReadStep(t, s);
    }
  }

  function ConsumerSteps(events: seq<Event>): nat {
    if events == [] then 0 else (if IsConsumer(events[0]) then 1 else 0) + ConsumerSteps(events[1..])
  }

  lemma {:induction false} ShutdownTerminates(t: Tables, db: Db, s: Sys, events: seq<Event>)
    requires Inv(t, db, s) && !s.writeOpen && IsRun(t, s, events)
    ensures ConsumerSteps(events) + Rank(End(t, s, events)) <= Rank(s)
    ensures End(t, s, events).pc != Finished ==> Enabled(End(t, s, events), NextConsumerEvent(End(t, s, events)))
    decreases |events|
  {
    hide Step, Enabled, Rank, NextConsumerEvent;
    if events == [] {
      StopIsEnabled(s);
      ShutdownProgress(t, db, s, RequestStop);
    } else {
      var e := events[0];
      ShutdownProgress(t, db, s, e);
      StepInvariant(t, db, s, e);
      StaysClosed(t, s, e);
      ShutdownTerminates(t, db, Step(t, s, e), events[1..]);
    }
  }

  lemma StopIsEnabled(s: Sys)
    ensures Enabled(s, RequestStop)
  {
  }

  lemma StaysClosed(t: Tables, s: Sys, e: Event)
    requires !s.writeOpen
    ensures !Step(t, s, e).writeOpen
  {
    hide ItemBytes, ItemsOf, Dumped, PutAll;
  }

  // ---------------------------------------------------------------------------------------------------------------
  // The loops of the consumer, over the store they update.

  class Store {
    var table: Db

    // egw_persist_put
    method Put(i: Item)
      modifies this
      ensures table == PutAll(old(table), [i])
    {
      table := table[KeyOf(i) := i.value];
      assert [i][..0] == [];
    }

    // The loop over the items of one read.
    method PutBatch(buf: array<bv8>, n: nat)
      requires n <= buf.Length
      modifies this
      ensures table == PutAll(old(table), ItemsOf(buf[..n]))
    {
      hide ItemAt, PutAll, KeyOf;
      var count := n / ITEM_SIZE;
      ghost var items := ItemsOf(buf[..n]);
      CountOfItems(buf[..n]);
      NothingPut(table);
      for i := 0 to count
        invariant table == PutAll(old(table), items[..i])
      {
        ItemIndex(buf[..n], i);
        assert buf[..n][ITEM_SIZE * i..ITEM_SIZE * (i + 1)] == buf[ITEM_SIZE * i..ITEM_SIZE * (i + 1)];
        Put(ItemAt(buf[ITEM_SIZE * i..ITEM_SIZE * (i + 1)]));
        PutAllConcat(old(table), items[..i], [items[i]]);
        assert items[..i + 1] == items[..i] + [items[i]];
      }
      assert items[..count] == items;
    }

    // The final drain, once the write end is closed: read until the end of the file or a read that fails. `sizes` says
    // how many items each successful read brings, if as many are left.
    method Drain(pipe: Bytes, sizes: seq<nat>) returns (taken: nat)
      requires |pipe| % ITEM_SIZE == 0 && forall i :: 0 <= i < |sizes| ==> 1 <= sizes[i] <= BATCH
      modifies this
      ensures taken == Min(|pipe|, ITEM_SIZE * Sum(sizes))
      ensures table == PutAll(old(table), ItemsOf(pipe[..taken]))
    {
      hide ItemAt, PutAll, ItemsOf, KeyOf;
      var buf := new bv8[BATCH * ITEM_SIZE];
      taken := 0;
      NothingPut(table);
      NoItems(pipe[..0]);
      var i := 0;
      while taken < |pipe| && i < |sizes|
        invariant i <= |sizes| && taken <= |pipe| && taken % ITEM_SIZE == 0
        invariant taken == Min(|pipe|, ITEM_SIZE * Sum(sizes[..i]))
        invariant table == PutAll(old(table), ItemsOf(pipe[..taken]))
        decreases |sizes| - i
      {
        var n := Min(|pipe| - taken, ITEM_SIZE * sizes[i]);
        forall k | 0 <= k < n { buf[k] := pipe[taken + k]; }
        ghost var chunk := pipe[taken..taken + n];
        assert buf[..n] == chunk;
        PutBatch(buf, n);
        SplitTaken(pipe, taken, n);
        PutAllConcat(old(table), ItemsOf(pipe[..taken]), ItemsOf(chunk));
        SumSnoc(sizes, i);
        taken, i := taken + n, i + 1;
      }
      SumGrows(sizes, i);
      assert sizes[..|sizes|] == sizes;
    }
  }

  function Sum(sizes: seq<nat>): nat {
    if sizes == [] then 0 else Sum(sizes[..|sizes| - 1]) + sizes[|sizes| - 1]
  }

  lemma SumSnoc(sizes: seq<nat>, i: nat)
    requires i < |sizes|
    ensures Sum(sizes[..i + 1]) == Sum(sizes[..i]) + sizes[i]
  {
    assert sizes[..i + 1][..i] == sizes[..i];
  }

  lemma {:induction false} SumGrows(sizes: seq<nat>, i: nat)
    requires i <= |sizes|
    ensures Sum(sizes[..i]) <= Sum(sizes)
    decreases |sizes| - i
  {
    if i == |sizes| {
      assert sizes[..i] == sizes;
    } else {
      SumSnoc(sizes, i);
      SumGrows(sizes, i + 1);
    }
  }

  lemma SplitTaken(pipe: Bytes, taken: nat, n: nat)
    requires taken + n <= |pipe| && taken % ITEM_SIZE == 0
    ensures ItemsOf(pipe[..taken + n]) == ItemsOf(pipe[..taken]) + ItemsOf(pipe[taken..taken + n])
  {
    hide ItemsOf;
    ItemsOfSplit(pipe[..taken + n], taken / ITEM_SIZE);
    assert pipe[..taken + n][..taken] == pipe[..taken] && pipe[..taken + n][taken..] == pipe[taken..taken + n];
  }

  lemma NothingPut(db: Db)
    ensures PutAll(db, []) == db
  {
  }

  lemma NoItems(b: Bytes)
    requires b == []
    ensures ItemsOf(b) == []
  {
  }

  lemma {:induction false} CountOfItems(b: Bytes)
    ensures |ItemsOf(b)| == |b| / ITEM_SIZE
    decreases |b|
  {
    hide ItemAt;
    if |b| >= ITEM_SIZE {
      CountOfItems(b[ITEM_SIZE..]);
    }
  }

  lemma SliceOfRest(b: Bytes, a: nat, lo: nat, hi: nat)
    requires lo <= hi && a + hi <= |b|
    ensures b[a..][lo..hi] == b[a + lo..a + hi]
  {
  }

  lemma {:induction false} ItemIndex(b: Bytes, i: nat)
    requires ITEM_SIZE * (i + 1) <= |b|
    ensures i < |ItemsOf(b)| && ItemsOf(b)[i] == ItemAt(b[ITEM_SIZE * i..ITEM_SIZE * (i + 1)])
    decreases i
  {
    hide ItemAt;
    if i > 0 {
      ItemIndex(b[ITEM_SIZE..], i - 1);
      SliceOfRest(b, ITEM_SIZE, ITEM_SIZE * (i - 1), ITEM_SIZE * i);
    }
  }

  lemma {:induction false} ItemsOfSplit(b: Bytes, k: nat)
    requires ITEM_SIZE * k <= |b|
    ensures ItemsOf(b) == ItemsOf(b[..ITEM_SIZE * k]) + ItemsOf(b[ITEM_SIZE * k..])
    decreases k
  {
    hide ItemAt;
    if k == 0 {
      assert b[0..] == b;
    } else {
      ItemsOfSplit(b[ITEM_SIZE..], k - 1);
      var c := b[..ITEM_SIZE * k];
      assert c[ITEM_SIZE..] == b[ITEM_SIZE..][..ITEM_SIZE * (k - 1)] && c[..ITEM_SIZE] == b[..ITEM_SIZE];
      assert b[ITEM_SIZE..][ITEM_SIZE * (k - 1)..] == b[ITEM_SIZE * k..];
    }
  }
}
