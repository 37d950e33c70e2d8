// The loopback context: a real server and a real client, the two channels, and the poll callbacks that drive them.
// Each callback is proved to be the corresponding step of LoopbackSpec, which is where the handshake is proved.
module Loopback {
  import opened Bytes
  import opened Framing
  import opened Payload
  import opened Codec
  import opened Units
  import opened ServerSpec
  import opened LoopbackSpec
  import opened Server
  import opened Client
  import Cl = ClientSpec
  import E = EndToEnd

  // slave_read_cb: registers count up from 0x000A plus their address if the point table has the row, and are 0 if not.
  function SlaveRegister(found: bool, addr: bv16, i: nat): bv16 {
    if found then 0x000A + addr + CastWord(i) else 0
  }

  function SlaveRegisters(rows: set<(bv8, bv16)>, unitId: bv8, addr: bv16, count: bv16): Option<seq<bv16>> {
    Some(seq(WordVal(count), i requires 0 <= i => SlaveRegister((unitId, addr) in rows, addr, i)))
  }

  function SlaveRead(rows: set<(bv8, bv16)>): ReadCb {
    (unitId: bv8, addr: bv16, count: bv16) => SlaveRegisters(rows, unitId, addr, count)
  }

  // The client with its one request registered, and the frame it sends.
  method MasterInit(p: EncodeParams) returns (client: ModbusClient, frame: Bytes)
    requires p.FromParams? && Encodable(p) && Adu(Rtu, p).Some?
    ensures fresh(client) && client.Valid() && fresh(client.recvBuf) && client.recvCap == MAX_FRAME
    ensures forall s :: s in client.ring ==> fresh(s.buf)
    ensures frame == Adu(Rtu, p).value && client.current != null
    ensures client.Abs() == Cl.Cli([], Some(Cl.Request(p.unitId, p.addr, frame)), 0, [], false)
  {
    hide Adu, Encodable, Linked;
    client := new ModbusClient(0);
    var slot := client.Register(p, null, 0);
    frame := client.Request(slot);
  }

  class LoopbackContext {
    const server: ModbusServer
    const cli: ModbusClient
    var toSrv: Bytes
    var toCli: Bytes
    var phase: Phase
    var segPending: bool
    var srvPolling: bool
    var cliPolling: bool
    var stopped: bool

    ghost predicate Valid()
      reads this, server, server.buf, server.respBuf, server.unitMask, cli, cli.recvBuf, cli.ring
    {
      && server.Valid() && cli.Valid()
      && cli.recvBuf !in {server.buf, server.respBuf, server.unitMask}
      && forall s :: s in cli.ring ==> s.buf !in {server.buf, server.respBuf, server.unitMask}
    }

    ghost function Abs(): Loop
      requires Valid()
      reads this, server, server.buf, server.respBuf, server.unitMask, cli, cli.recvBuf, cli.ring,
            if cli.current == null then {} else {cli.current.buf}
    {
      Loop(server.Abs(), cli.Abs(), toSrv, toCli, segPending, srvPolling, cliPolling, phase, stopped)
    }

    // The set-up of the loopback: both ends with default buffers, the request registered and sent.
    constructor (unitIds: Bytes, readCb: ReadCb, stale: nat -> bv8, staleRegs: nat -> bv16,
                 p: EncodeParams)
      requires |unitIds| == 4 && p.FromParams? && Encodable(p) && Adu(Rtu, p).Some?
      ensures Valid() && Start(Abs(), AddUnits({}, unitIds).0, p)
      ensures server.cfg == Config(MAX_FRAME, MAX_FRAME, Some(readCb), None, stale, staleRegs)
      ensures cli.recvCap == MAX_FRAME
    {
      hide Adu, Encodable, AddUnits, UnitSet, Linked;
      var srv := new ModbusServer(0, 0, unitIds, Some(readCb), None, stale, staleRegs);
      var client, frame := MasterInit(p);
      server, cli := srv, client;
      toSrv, toCli := frame, [];
      phase, segPending, srvPolling, cliPolling, stopped := ServerRecv, false, true, false, false;
    }

    // The server's descriptor is readable; the transport has k of the bytes in flight.
    method SlaveOnPoll(k: nat) returns (n: nat)
      requires Valid() && srvPolling && !stopped && 0 < k <= |toSrv|
      modifies this, server, server.buf, server.respBuf
      ensures Valid() && n <= k
      ensures n == 0 ==> Abs() == old(Abs()) && (server.sending || server.BufFree() == 0)
      ensures n > 0 ==> Enabled(server.cfg, cli.recvCap, old(Abs()), n)
                        && Abs() == LoopbackSpec.SlaveOnPoll(server.cfg, old(Abs()), n)
    {
      hide Commit, UnitSet, Linked, Cl.Take;
      n := server.PollRead(toSrv[..k]);
      assert toSrv[..k][..n] == toSrv[..n];
      if n == 0 {
        return;
      }
      toSrv := toSrv[n..];
      SendFirstHalf();
    }

    method SendFirstHalf()
      requires Valid()
      modifies this
      ensures Valid()
      ensures Abs() == FirstHalf(old(Abs()))
    {
      hide UnitSet, Linked;
      var response := server.GetResponse();
      if response.None? {
        return;
      }
      toCli := toCli + response.value[..|response.value| / 2];
      srvPolling := false;
      segPending := true;
      cliPolling := true;
    }

    // The client's descriptor is readable; the transport has k of the bytes in flight.
    method MasterOnPoll(k: nat) returns (n: nat)
      requires Valid() && cliPolling && !stopped && 0 < k <= |toCli|
      modifies this, server, server.respBuf, cli`recvLen, cli`rxCount, cli`done, cli`overrun, cli.recvBuf
      ensures Valid() && n <= k
      ensures n == 0 ==> Abs() == old(Abs()) && (cli.current == null || cli.recvLen == cli.recvCap)
      ensures n > 0 && !old(srvPolling) ==> Enabled(server.cfg, cli.recvCap, old(Abs()), n)
      ensures n > 0 ==> Abs() == LoopbackSpec.MasterOnPoll(server.cfg, cli.recvCap, old(Abs()), n)
    {
      hide SecondHalf, UnitSet, Linked, ClientReads;
      n := ReadResponse(k);
      if n == 0 {
        return;
      }
      SendSecondHalf();
    }

    method ReadResponse(k: nat) returns (n: nat)
      requires Valid() && 0 < k <= |toCli|
      modifies this, cli`recvLen, cli`rxCount, cli`done, cli`overrun, cli.recvBuf
      ensures Valid() && n <= k
      ensures n == 0 ==> Abs() == old(Abs()) && (cli.current == null || cli.recvLen == cli.recvCap)
      ensures n > 0 ==> cli.current != null && old(cli.recvLen) + n <= cli.recvCap
      ensures n > 0 ==> Abs() == ClientReads(cli.recvCap, old(Abs()), n)
    {
      hide UnitSet, Linked, Cl.Take;
      var before := |cli.done|;
      n := TakeIn(k);
      if n == 0 {
        return;
      }
      RunCompletion(before);
    }

    // The client takes in what it has room for.
    method TakeIn(k: nat) returns (n: nat)
      requires Valid() && 0 < k <= |toCli|
      modifies this`toCli, cli`recvLen, cli`rxCount, cli`done, cli`overrun, cli.recvBuf
      ensures Valid() && n <= k
      ensures n == 0 ==> cli.current == null || cli.recvLen == cli.recvCap
      ensures n > 0 ==> cli.current != null && old(cli.recvLen) + n <= cli.recvCap
      ensures Abs() == old(Abs()).(cli := Cl.Take(cli.recvCap, old(Abs()).cli, old(toCli)[..n]),
                                   toCli := old(toCli)[n..])
      ensures n == 0 ==> Abs() == old(Abs())
    {
      hide UnitSet, Linked, Cl.Take;
      n := cli.PollRead(toCli[..k]);
      assert toCli[..k][..n] == toCli[..n] && toCli[0..] == toCli;
      toCli := toCli[n..];
    }

    method SendSecondHalf()
      requires Valid()
      modifies this, server, server.respBuf
      ensures Valid()
      ensures Abs() == SecondHalf(server.cfg, old(Abs()))
    {
      hide ResponseSent, UnitSet, Linked;
      if segPending {
        segPending := false;
        var response := server.GetResponse();
        if response.Some? {
          toCli := toCli + response.value[|response.value| / 2..];
          server.ResponseSent();
        }
      }
    }

    // master_done_cb, if the client has just called it.
    method RunCompletion(before: nat)
      modifies this`phase, this`stopped
      ensures phase == if |cli.done| > before && cli.done[|cli.done| - 1].regs.Some? then Done else old(phase)
      ensures stopped == (old(stopped) || |cli.done| > before)
    {
      if |cli.done| > before {
        if cli.done[|cli.done| - 1].regs.Some? {
          phase := Done;
        }
        stopped := true;
      }
    }
  }

  lemma SlaveRegisterAt(rows: set<(bv8, bv16)>, unitId: bv8, addr: bv16, count: bv16, i: nat)
    ensures var stored := SlaveRegisters(rows, unitId, addr, count);
            && stored.Some? && |stored.value| == WordVal(count)
            && (i < WordVal(count) ==> stored.value[i] == SlaveRegister((unitId, addr) in rows, addr, i))
  {
    hide WordVal, SlaveRegister;
  }

  lemma SlaveDelivered(rows: set<(bv8, bv16)>, p: EncodeParams, got: Option<seq<bv16>>, i: nat)
    requires p.FromParams?
    requires E.Delivered(p.funccode, WordVal(p.count), SlaveRegisters(rows, p.unitId, p.addr, p.count), got)
    ensures SlaveRegisters(rows, p.unitId, p.addr, p.count).Some?
    ensures var coils := p.funccode == 0x01 || p.funccode == 0x02;
            var n := if coils then (WordVal(p.count) + 7) / 8 else WordVal(p.count);
            && got.Some? && |got.value| == n
            && (i < n ==> got.value[i] == E.Item(p.funccode, SlaveRegister((p.unitId, p.addr) in rows, p.addr, i)))
  {
    hide WordVal, SlaveRegister, SlaveRegisters, E.Item;
    SlaveRegisterAt(rows, p.unitId, p.addr, p.count, i);
  }

  // With the slave's callback: every run of the loopback that stops has stopped in phase Done, with one register for
  // each asked, or for each eight coils, counting up from 0x000A plus the address if there is a row for it, and 0 if
  // not; of which a coil read delivers the low bytes.
  lemma SlaveHandshake(cfg: Config, units: set<nat>, p: EncodeParams, l: Loop, sizes: seq<nat>, rows: set<(bv8, bv16)>,
                       i: nat)
    requires Setup(cfg, MAX_FRAME, units, p) && Start(l, units, p) && IsRun(cfg, MAX_FRAME, l, sizes)
    requires cfg.readCb == Some(SlaveRead(rows))
    ensures var e, coils := End(cfg, MAX_FRAME, l, sizes), p.funccode == 0x01 || p.funccode == 0x02;
            var n := if coils then (WordVal(p.count) + 7) / 8 else WordVal(p.count);
            e.stopped ==>
              && e.phase == Done && |e.cli.done| == 1 && e.cli.done[0].regs.Some?
              && |e.cli.done[0].regs.value| == n
              && (i < n ==>
                    var v := if (p.unitId, p.addr) in rows then 0x000A + p.addr + CastWord(i) else 0;
                    e.cli.done[0].regs.value[i] == E.Item(p.funccode, v))
  {
    assert cfg.readCb.value(p.unitId, p.addr, p.count) == SlaveRegisters(rows, p.unitId, p.addr, p.count);
    hide Setup, Start, IsRun, End, CastWord, WordVal, E.Meant, E.Delivered, E.Item, SlaveRegisters;
    HandshakeCompletes(cfg, MAX_FRAME, units, p, l, sizes);
    var e := End(cfg, MAX_FRAME, l, sizes);
    if e.stopped {
      SlaveDelivered(rows, p, e.cli.done[0].regs, i);
    }
  }
}
