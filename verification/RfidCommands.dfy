/** What the RFID module does with the client's packets: commands for the scan,
    and packets for the reader board that go through unchanged. */
module RfidCommands {
  import opened Bytes
  import opened SafeFifo
  import opened Wire
  import opened NetworkServer
  import SerialPackets

  const CMD_READER_ON_OFF: byte := 0x17

  const MAX_ARGS: nat := 20

  /** What the module sets going: a scan thread, its stop, or a write to the
      serial line. */
  datatype Deed = ScanOn | ScanOff | WriteSerial(data: seq<byte>)

  /** A command brings its arguments, at most as many as the structure holds,
      and the one for the scan brings one. */
  predicate WellFormed(m: Short) {
    m.typ == CMD_RFID ==>
      && |m.payload| >= 2 && m.payload[1] as nat <= MAX_ARGS && 2 + m.payload[1] as nat <= |m.payload|
      && (m.payload[0] == CMD_READER_ON_OFF ==> m.payload[1] >= 1)
  }

  function Deeds(m: Short): seq<Deed>
    requires WellFormed(m)
  {
    if m.typ == RFID_DIRECT then [WriteSerial(m.payload)]
    else if m.typ == CMD_RFID && m.payload[0] == CMD_READER_ON_OFF then [if m.payload[2] == 1 then ScanOn else ScanOff]
    else []
  }

  ghost predicate AllWellFormed(ms: seq<Short>) {
    forall m <- ms :: WellFormed(m)
  }

  function AllDeeds(ms: seq<Short>): seq<Deed>
    requires forall m <- ms :: WellFormed(m)
  {
    if ms == [] then [] else Deeds(ms[0]) + AllDeeds(ms[1..])
  }

  // ----- what reaches the board and the scan -----

  /** The bytes written to the serial line. */
  function Written(ds: seq<Deed>): seq<byte> {
    if ds == [] then [] else (if ds[0].WriteSerial? then ds[0].data else []) + Written(ds[1..])
  }

  function Payloads(ms: seq<Short>): seq<byte> {
    if ms == [] then [] else ms[0].payload + Payloads(ms[1..])
  }

  lemma {:induction false} WrittenAppend(ds: seq<Deed>, es: seq<Deed>)
    ensures Written(ds + es) == Written(ds) + Written(es)
  {
    if ds == [] {
      Unit(es);
      Unit(Written(es));
    } else {
      assert (ds + es)[0] == ds[0] && (ds + es)[1..] == ds[1..] + es;
      WrittenAppend(ds[1..], es);
      Assoc(if ds[0].WriteSerial? then ds[0].data else [], Written(ds[1..]), Written(es));
    }
  }

  lemma {:induction false} WrittenByOne(m: Short)
    requires WellFormed(m)
    ensures Written(Deeds(m)) == if m.typ == 4 then m.payload else []
  {
    Unit(m.payload);
  }

  /** The board gets the payloads of the packets of type 4, unchanged and in
      order, and nothing else. */
  lemma {:induction false} BoardGetsDirect(ms: seq<Short>)
    requires AllWellFormed(ms)
    ensures Written(AllDeeds(ms)) == Payloads(OfTypes(ms, {4}))
  {
    if ms != [] {
      var m, rest := ms[0], ms[1..];
      BoardGetsDirect(rest);
      WrittenByOne(m);
      WrittenAppend(Deeds(m), AllDeeds(rest));
      if m.typ == 4 {
        assert OfTypes(ms, {4}) == [m] + OfTypes(rest, {4});
        assert ([m] + OfTypes(rest, {4}))[1..] == OfTypes(rest, {4});
      } else {
        Unit(OfTypes(rest, {4}));
        Unit(Written(AllDeeds(rest)));
      }
    }
  }

  /** The client's commands for the scan: the byte behind 0x17 and the number of
      arguments says on or off. */
  lemma {:induction false} ScanCommands(on: bool)
    ensures var m := Message(0, [0x17, 1, if on then 1 else 0]);
      WellFormed(m) && Deeds(m) == [if on then ScanOn else ScanOff]
  {}

  lemma {:induction false} PassedOver(ms: seq<Short>)
    requires AllWellFormed(ms)
    ensures AllWellFormed(OfTypes(ms, {0, 4})) && AllDeeds(OfTypes(ms, {0, 4})) == AllDeeds(ms)
  {
    if ms != [] {
      var rest := ms[1..];
      PassedOver(rest);
      if ms[0].typ == 0 || ms[0].typ == 4 {
        assert OfTypes(ms, {0, 4}) == [ms[0]] + OfTypes(rest, {0, 4});
        assert ([ms[0]] + OfTypes(rest, {0, 4}))[1..] == OfTypes(rest, {0, 4});
      } else {
        Unit(OfTypes(rest, {0, 4}));
        Unit(AllDeeds(rest));
      }
    }
  }

  class CommandWorker {
    const fifoIn: SafeFIFO<Packet>
    const args: array<byte>
    var cmdType: byte
    var argc: nat
    var deeds: seq<Deed>

    constructor (fifoIn: SafeFIFO<Packet>)
      ensures this.fifoIn == fifoIn && fresh(args) && args.Length == MAX_ARGS && deeds == []
    {
      this.fifoIn := fifoIn;
      args := new byte[MAX_ARGS];
      cmdType, argc, deeds := 0, 0, [];
    }

    method Execute()
      requires args.Length == MAX_ARGS
      modifies this`deeds
      ensures deeds == old(deeds) + if cmdType == 0x17 then [if args[0] == 1 then ScanOn else ScanOff] else []
    {
      if cmdType == CMD_READER_ON_OFF {
        if args[0] == 1 {
          deeds := deeds + [ScanOn];
        } else {
          deeds := deeds + [ScanOff];
        }
      } else {
        Unit(deeds);
      }
    }

    method Decapsulate(command: Packet)
      requires args.Length == MAX_ARGS && command.Valid() && WellFormed(command.Content())
      modifies this`cmdType, this`argc, this`deeds, args
      ensures deeds == old(deeds) + Deeds(command.Content())
    {
      ghost var payload := command.Content().payload;
      assert forall k :: 0 <= k < |payload| ==> command.data[k] == payload[k];
      if command.typ == CMD_RFID {
        cmdType := command.data[0];
        argc := command.data[1] as nat;
        var k := 0;
        while k < argc
          invariant 0 <= k <= argc <= MAX_ARGS && cmdType == payload[0] && argc == payload[1] as nat
          invariant k > 0 ==> args[0] == payload[2]
          invariant deeds == old(deeds)
        {
          args[k] := command.data[k + 2];
          k := k + 1;
        }
        Execute();
      } else if command.typ == RFID_DIRECT {
        deeds := deeds + [WriteSerial(command.data[..command.size])];
      } else {
        Unit(deeds);
      }
    }

    /** The worker's loop over its queue. */
    method Work()
      requires args.Length == MAX_ARGS && AllValid(fifoIn.vec) && AllWellFormed(Contents(fifoIn.vec))
      modifies fifoIn, this`cmdType, this`argc, this`deeds, args
      ensures fifoIn.vec == [] && deeds == old(deeds) + AllDeeds(Contents(old(fifoIn.vec)))
    {
      ghost var all := deeds + AllDeeds(Contents(fifoIn.vec));
      while !fifoIn.Empty()
        invariant AllValid(fifoIn.vec) && AllWellFormed(Contents(fifoIn.vec))
        invariant deeds + AllDeeds(Contents(fifoIn.vec)) == all
        decreases |fifoIn.vec|
      {
        ghost var before, waiting := deeds, fifoIn.vec;
        var cmd := fifoIn.ReadOne();
        NextMessage(waiting, cmd, fifoIn.vec);
        Decapsulate(cmd);
        Assoc(before, Deeds(cmd.Content()), AllDeeds(Contents(fifoIn.vec)));
      }
      Unit(deeds);
    }
  }

  lemma {:induction false} NextMessage(waiting: seq<Packet>, cmd: Packet, rest: seq<Packet>)
    requires AllValid(waiting) && AllWellFormed(Contents(waiting)) && waiting == [cmd] + rest
    ensures cmd.Valid() && AllValid(rest) && WellFormed(cmd.Content()) && AllWellFormed(Contents(rest))
    ensures AllDeeds(Contents(waiting)) == Deeds(cmd.Content()) + AllDeeds(Contents(rest))
  {
    assert cmd in waiting && waiting[1..] == rest;
    assert forall p <- rest :: p in waiting;
    var ms := Contents(waiting);
    assert ms == [cmd.Content()] + Contents(rest);
    assert ms[0] in ms && ms[1..] == Contents(rest);
    assert forall m <- Contents(rest) :: m in ms;
  }

  // ----- from the client to the board -----

  /** Any messages of the client, framed, dispatched and executed: the board is
      sent exactly the payloads of those of type 4, and the scan is switched as
      those of type 0 say, in order. */
  method CommandsReachBoard(net: Network, rfid: CommandWorker, ghost ms: seq<Short>)
    requires net.Valid() && rfid.args.Length == MAX_ARGS && rfid.fifoIn == net.rfidIn
    requires net.rfidIn.vec == [] && rfid.deeds == [] && AllWellFormed(ms) && net.dataIn.vec == Stream(ms)
    modifies net.dataIn, net.rfidIn, net.motorIn, rfid, rfid.args
    ensures net.dataIn.vec == [] && net.rfidIn.vec == []
    ensures rfid.deeds == AllDeeds(ms) && Written(rfid.deeds) == Payloads(OfTypes(ms, {4}))
  {
    net.ServeInput(ms);
    PassedOver(ms);
    BoardGetsDirect(ms);
    Unit(OfTypes(ms, {0, 4}));
    rfid.Work();
    Unit(AllDeeds(ms));
  }

  /** The bytes the client sends to set the output power. */
  function PowerCommand(reg: byte): seq<byte> {
    [0x41, 0x42, 0x13, 0x56, 4, 0, 11, 0x00, 0x00, 0x00, 0x07, 0x68, 0x00, 0x02, 0x00, 0x00, 0x15, reg]
  }

  /** They are a frame, and what reaches the board is the packet the driver
      itself would prepare first for writing that register. */
  lemma {:induction false} PowerReachesBoard(reg: byte)
    ensures exists m: Short ::
      && Stream([m]) == PowerCommand(reg) && WellFormed(m)
      && Written(AllDeeds([m])) == SerialPackets.Prepared(0, 0x68, 0, [0x15, reg])
  {
    var m := Message(4, [0x00, 0x00, 0x00, 0x07, 0x68, 0x00, 0x02, 0x00, 0x00, 0x15, reg]);
    PowerFrame(m, reg);
    WrittenByOne(m);
    assert [m][1..] == [];
    Unit(Deeds(m));
    assert AllDeeds([m]) == Deeds(m);
    PowerPacket(m.payload, reg);
  }

  lemma {:induction false} PowerFrame(m: Short, reg: byte)
    requires m == Message(4, [0x00, 0x00, 0x00, 0x07, 0x68, 0x00, 0x02, 0x00, 0x00, 0x15, reg])
    ensures Stream([m]) == PowerCommand(reg)
  {
    assert [m][1..] == [];
    Unit(Frame(m));
    var head := [0x41, 0x42, 0x13, 0x56, 4, 0, 11];
    assert Header(m) == head;
    assert PowerCommand(reg) == head + m.payload;
  }

  lemma {:induction false} PowerPacket(bytes: seq<byte>, reg: byte)
    requires bytes == [0x00, 0x00, 0x00, 0x07, 0x68, 0x00, 0x02, 0x00, 0x00, 0x15, reg]
    ensures bytes == SerialPackets.Prepared(0, 0x68, 0, [0x15, reg])
  {
    var head := [0x00, 0x00, 0x00, 0x07, 0x68, 0x00, 0x02, 0x00, 0x00];
    assert SerialPackets.Header(0, 0x68, 2, 0) == head;
    assert bytes == head + [0x15, reg];
  }
}
