/** The server's network object: the byte FIFOs of the one client, the packet
    queues of the two modules, and the worker's work on them. */
module NetworkServer {
  import opened Bytes
  import opened SafeFifo
  import opened Wire
  import opened ServerFrames
  import opened InboundRuns

  predicate ForRfid(typ: byte) {
    typ == CMD_RFID || typ == RFID_DIRECT
  }

  predicate ForMotor(typ: byte) {
    typ == CMD_MOTOR
  }

  /** The messages the dispatcher sends to the RFID module. */
  function RfidPart(ms: seq<Short>): seq<Short> {
    if ms == [] then [] else (if ForRfid(ms[0].typ) then [ms[0]] else []) + RfidPart(ms[1..])
  }

  /** The messages the dispatcher sends to the motor module. */
  function MotorPart(ms: seq<Short>): seq<Short> {
    if ms == [] then [] else (if ForMotor(ms[0].typ) then [ms[0]] else []) + MotorPart(ms[1..])
  }

  /** The messages of certain types, in their order. */
  function OfTypes(ms: seq<Short>, types: set<byte>): (part: seq<Short>)
    ensures forall m <- part :: m in ms && m.typ in types
    ensures forall m <- ms :: m.typ in types ==> m in part
  {
    if ms == [] then [] else (if ms[0].typ in types then [ms[0]] else []) + OfTypes(ms[1..], types)
  }

  /** The routing table: types 0 and 4 are for the RFID module, type 1 for the
      motor. */
  lemma {:induction false} RoutingTable(ms: seq<Short>)
    ensures RfidPart(ms) == OfTypes(ms, {0, 4})
    ensures MotorPart(ms) == OfTypes(ms, {1})
  {
    if ms != [] {
      RoutingTable(ms[1..]);
    }
  }

  lemma {:induction false} PartsAppend(ms: seq<Short>, ns: seq<Short>)
    ensures RfidPart(ms + ns) == RfidPart(ms) + RfidPart(ns)
    ensures MotorPart(ms + ns) == MotorPart(ms) + MotorPart(ns)
  {
    if ms == [] {
      Unit(ns);
    } else {
      assert (ms + ns)[0] == ms[0] && (ms + ns)[1..] == ms[1..] + ns;
      PartsAppend(ms[1..], ns);
      Assoc(if ForRfid(ms[0].typ) then [ms[0]] else [], RfidPart(ms[1..]), RfidPart(ns));
      Assoc(if ForMotor(ms[0].typ) then [ms[0]] else [], MotorPart(ms[1..]), MotorPart(ns));
    }
  }

  ghost predicate AllValid(ps: seq<Packet>) {
    forall p <- ps :: p.Valid()
  }

  lemma {:induction false} ContentsPlus(ps: seq<Packet>, p: Packet)
    requires AllValid(ps) && p.Valid()
    ensures AllValid(ps + [p]) && Contents(ps + [p]) == Contents(ps) + [p.Content()]
  {
    ContentsAppend(ps, [p]);
  }

  function Prepend(done: seq<Short>, s: Sweep): Sweep {
    match s
    case Fault => Fault
    case Swept(used, ms) => Swept(used, done + ms)
  }

  lemma {:induction false} PrependNone(s: Sweep)
    ensures Prepend([], s) == s
  {
    if s.Swept? {
      Unit(s.forwarded);
    }
  }

  lemma {:induction false} PrependTwice(done: seq<Short>, m: Short, s: Sweep)
    ensures Prepend(done + [m], s) ==
            Prepend(done, match s case Fault => Fault case Swept(used, ms) => Swept(used, [m] + ms))
  {
    if s.Swept? {
      Assoc(done, [m], s.forwarded);
    }
  }

  /** The first i bytes of a big-endian word at position k, in their places. */
  function PartialMagic(v: seq<byte>, k: nat, i: nat): nat
    requires i <= 4 && k + i <= |v|
  {
    (if i > 0 then 0x100_0000 * v[k] as nat else 0) + (if i > 1 then 0x1_0000 * v[k + 1] as nat else 0) +
    (if i > 2 then 256 * v[k + 2] as nat else 0) + (if i > 3 then v[k + 3] as nat else 0)
  }

  /** What the packets of the two module queues carry. */
  datatype Modules = Modules(rfid: seq<Short>, motor: seq<Short>)

  function Routed(q: Modules, ms: seq<Short>): Modules {
    Modules(q.rfid + RfidPart(ms), q.motor + MotorPart(ms))
  }

  lemma {:induction false} RoutedTwice(q: Modules, ms: seq<Short>, ns: seq<Short>)
    ensures Routed(Routed(q, ms), ns) == Routed(q, ms + ns)
  {
    PartsAppend(ms, ns);
    Assoc(q.rfid, RfidPart(ms), RfidPart(ns));
    Assoc(q.motor, MotorPart(ms), MotorPart(ns));
  }

  lemma {:induction false} RoutedNone(q: Modules)
    ensures Routed(q, []) == q
  {
    Unit(q.rfid);
    Unit(q.motor);
  }

  lemma {:induction false} RoutedOne(q: Modules, m: Short)
    ensures Routed(q, [m]) == Modules(if ForRfid(m.typ) then q.rfid + [m] else q.rfid,
                                      if ForMotor(m.typ) then q.motor + [m] else q.motor)
  {
    Unit(q.rfid);
    Unit(q.motor);
    assert RfidPart([m]) == (if ForRfid(m.typ) then [m] else []) + RfidPart([]);
    assert MotorPart([m]) == (if ForMotor(m.typ) then [m] else []) + MotorPart([]);
    Unit<Short>([m]);
    Unit<Short>([]);
  }

  /** The loop of decapsulate has forwarded `done` and stands at position k;
      it goes on if the last magic number read was right (`live`) and k is
      below the limit. */
  ghost predicate SoFar(v: seq<byte>, k: nat, live: bool, done: seq<Short>) {
    SweepOf(v) == if k < MAX_DATA_LEN && live then Prepend(done, SweepFrom(v, k)) else Swept(k, done)
  }

  lemma {:induction false} SoFarFirst(v: seq<byte>)
    requires |v| >= 4
    ensures SoFar(v, 4, MagicAt(v, 0), [])
  {
    PrependNone(SweepFrom(v, 4));
  }

  lemma {:induction false} SoFarTurn(v: seq<byte>, k: nat, done: seq<Short>)
    requires SweepOf(v).Swept? && k < MAX_DATA_LEN && SoFar(v, k, true, done)
    ensures HasFrame(v, k)
    ensures var end, done' := EndOf(v, k), done + [FrameOf(v, k)];
      if end + 4 < MAX_DATA_LEN && end + 4 < |v| then SoFar(v, end + 4, MagicAt(v, end), done')
      else SoFar(v, end, false, done')
  {
    PrependTwice(done, FrameOf(v, k), SweepFrom(v, EndOf(v, k) + 4));
  }

  lemma {:induction false} SoFarLast(v: seq<byte>, k: nat, live: bool, done: seq<Short>)
    requires SoFar(v, k, live, done) && !(k < MAX_DATA_LEN && live)
    ensures SweepOf(v) == Swept(k, done)
  {}

  class Network {
    const dataIn: SafeFIFO<byte>
    const dataOut: SafeFIFO<byte>
    const rfidIn: SafeFIFO<Packet>
    const rfidOut: SafeFIFO<Packet>
    const motorIn: SafeFIFO<Packet>
    const motorOut: SafeFIFO<Packet>
    var unlockWriteThread: nat  // the semaphore the writer thread waits for

    ghost predicate Valid()
      reads this, rfidIn, motorIn
    {
      && dataIn != dataOut && rfidIn != rfidOut && rfidIn != motorIn && rfidIn != motorOut
      && rfidOut != motorIn && rfidOut != motorOut && motorIn != motorOut
      && AllValid(rfidIn.vec) && AllValid(motorIn.vec)
    }

    /** What waits for the two modules. */
    ghost function Inbound(): Modules
      requires Valid()
      reads this, rfidIn, motorIn
    {
      Modules(Contents(rfidIn.vec), Contents(motorIn.vec))
    }

    constructor (rfidIn: SafeFIFO<Packet>, rfidOut: SafeFIFO<Packet>,
                 motorIn: SafeFIFO<Packet>, motorOut: SafeFIFO<Packet>)
      requires rfidIn != rfidOut && rfidIn != motorIn && rfidIn != motorOut
      requires rfidOut != motorIn && rfidOut != motorOut && motorIn != motorOut
      requires AllValid(rfidIn.vec) && AllValid(motorIn.vec)
      ensures Valid() && fresh(dataIn) && fresh(dataOut)
      ensures this.rfidIn == rfidIn && this.rfidOut == rfidOut && this.motorIn == motorIn && this.motorOut == motorOut
      ensures dataIn.vec == [] && dataOut.vec == [] && unlockWriteThread == 0
    {
      this.rfidIn, this.rfidOut, this.motorIn, this.motorOut := rfidIn, rfidOut, motorIn, motorOut;
      var bytesIn := new SafeFIFO<byte>();
      var bytesOut := new SafeFIFO<byte>();
      dataIn, dataOut := bytesIn, bytesOut;
      unlockWriteThread := 0;
    }

    method ReadMagic(k: nat) returns (magic: nat)
      requires k + 4 <= |dataIn.vec|
      ensures magic == MAGIC_WORD <==> MagicAt(dataIn.vec, k)
    {
      magic := 0;
      var i := 0;
      while i < 4
        invariant 0 <= i <= 4
        invariant magic == PartialMagic(dataIn.vec, k, i)
      {
        var weight := if i == 0 then 0x100_0000 else if i == 1 then 0x1_0000 else if i == 2 then 256 else 1;
        magic := magic + weight * dataIn.vec[k + i] as nat;
        i := i + 1;
      }
    }

    /** Copies the payload into the packet; what the array held beyond it
        stays there. */
    method CopyPayload(data: array<byte>, k: nat, size: nat)
      requires size <= data.Length && k + size <= |dataIn.vec|
      modifies data
      ensures data[..size] == dataIn.vec[k..k + size]
    {
      var i := k;
      while i < k + size
        invariant k <= i <= k + size
        invariant data[..i - k] == dataIn.vec[k..i]
      {
        data[i - k] := dataIn.vec[i];
        i := i + 1;
      }
    }

    method Dispatch(command: Packet)
      requires Valid() && command.Valid()
      modifies rfidIn, motorIn
      ensures Valid() && Inbound() == Routed(old(Inbound()), [command.Content()])
      ensures rfidIn.vec == old(rfidIn.vec) + if command.typ == 0 || command.typ == 4 then [command] else []
      ensures motorIn.vec == old(motorIn.vec) + if command.typ == 1 then [command] else []
      ensures old(rfidIn.vec) <= rfidIn.vec && old(motorIn.vec) <= motorIn.vec
    {
      ContentsPlus(rfidIn.vec, command);
      ContentsPlus(motorIn.vec, command);
      RoutedOne(Inbound(), command.Content());
      if command.typ == CMD_RFID || command.typ == RFID_DIRECT {
        rfidIn.WriteOne(command);
      } else if command.typ == CMD_MOTOR {
        motorIn.WriteOne(command);
      }
    }

    /** Builds the packet whose type byte lies at position k in the reused
        array `data` and hands it to the dispatcher. */
    method ForwardFrame(data: array<byte>, k: nat) returns (end: nat)
      requires Valid() && data.Length == MAX_DATA_LEN
      requires HasFrame(dataIn.vec, k)
      modifies data, rfidIn, motorIn
      ensures Valid()
      ensures end == EndOf(dataIn.vec, k)
      ensures Inbound() == Routed(old(Inbound()), [FrameOf(dataIn.vec, k)])
    {
      var typ := dataIn.vec[k];
      var size := BigEndian16(dataIn.vec[k + 1], dataIn.vec[k + 2]);
      CopyPayload(data, k + 3, size);
      var packetIn := Packet(typ, size, data[..]);
      assert packetIn.Content() == FrameOf(dataIn.vec, k);
      Dispatch(packetIn);
      end := k + 3 + size;
    }

    /** One call: takes a prefix off the FIFO and routes what it carries. It
        needs a FIFO on which it stays within bounds. */
    method Decapsulate()
      requires Valid() && SweepOf(dataIn.vec).Swept?
      modifies dataIn, rfidIn, motorIn
      ensures Valid()
      ensures dataIn.vec == old(dataIn.vec)[SweepOf(old(dataIn.vec)).used..]
      ensures Inbound() == Routed(old(Inbound()), SweepOf(old(dataIn.vec)).forwarded)
    {
      var k := ForwardFrames();
      dataIn.Remove(k);
    }

    /** The loop of decapsulate: forwards frames and counts the bytes used. */
    method ForwardFrames() returns (k: nat)
      requires Valid() && SweepOf(dataIn.vec).Swept?
      modifies rfidIn, motorIn
      ensures Valid() && k == SweepOf(dataIn.vec).used
      ensures Inbound() == Routed(old(Inbound()), SweepOf(dataIn.vec).forwarded)
    {
      ghost var v, queues := dataIn.vec, Inbound();
      ghost var done: seq<Short> := [];
      var data := new byte[MAX_DATA_LEN];
      k := 0;
      var numbMagic := ReadMagic(k);
      k := k + 4;
      ghost var live := numbMagic == MAGIC_WORD;
      SoFarFirst(v);
      RoutedNone(queues);
      while k < MAX_DATA_LEN && numbMagic == MAGIC_WORD
        invariant 4 <= k <= |v| && dataIn.vec == v && live == (numbMagic == MAGIC_WORD)
        invariant Valid() && Inbound() == Routed(queues, done)
        invariant SoFar(v, k, live, done)
        decreases |v| - k
      {
        SoFarTurn(v, k, done);
        ghost var m := FrameOf(v, k);
        k := ForwardFrame(data, k);
        RoutedTwice(queues, done, [m]);
        done := done + [m];
        if k + 4 < MAX_DATA_LEN && k + 4 < dataIn.Size() {
          numbMagic := ReadMagic(k);
          k := k + 4;
          live := numbMagic == MAGIC_WORD;
        } else {
          live := false;
          break;
        }
      }
      SoFarLast(v, k, live, done);
    }

    /** The worker's loop as far as input is concerned: as long as there is
        data, decapsulate. On whole frames it empties the FIFO and routes every
        message, in order, to the queue of its module: types 0 and 4 to that of
        the RFID module, type 1 to that of the motor, and all others nowhere. */
    method ServeInput(ghost ms: seq<Short>)
      requires Valid() && dataIn.vec == Stream(ms)
      modifies dataIn, rfidIn, motorIn
      ensures Valid() && dataIn.vec == []
      ensures Contents(rfidIn.vec) == old(Contents(rfidIn.vec)) + OfTypes(ms, {0, 4})
      ensures Contents(motorIn.vec) == old(Contents(motorIn.vec)) + OfTypes(ms, {1})
    {
      ghost var queues, done, left := Inbound(), [], ms;
      RoutedNone(queues);
      RoutingTable(ms);
      Unit(ms);
      while !dataIn.Empty()
        invariant Valid() && dataIn.vec == Stream(left) && done + left == ms
        invariant Inbound() == Routed(queues, done)
        decreases |dataIn.vec|
      {
        ghost var n := WholeFramesTurn(left);
        Decapsulate();
        RoutedTwice(queues, done, left[..n]);
        Assoc(done, left[..n], left[n..]);
        done, left := done + left[..n], left[n..];
      }
      Unit(done);
    }

    /** Puts a frame of `size` bytes together, queues it for the writer and
        wakes the writer once. */
    method WriteFrame(p: Packet, ghost padding: nat, size: nat)
      requires OutFrame(p, padding).Valid() && size == 7 + p.size + padding
      modifies dataOut, this`unlockWriteThread
      ensures dataOut.vec == old(dataOut.vec) + OutFrame(p, padding).Encoded()
      ensures unlockWriteThread == old(unlockWriteThread) + 1
    {
      dataOut.WriteAll(MAGIC_LE + Raw(p)[..size - 4]);
      unlockWriteThread := unlockWriteThread + 1;
    }

    /** The worker's loop over the packets of the RFID module: each becomes a
        frame of its own, in order, and wakes the writer once. */
    method SendRfid()
      requires Valid() && Fit(rfidOut.vec, RFID_PADDING)
      modifies rfidOut, dataOut, this`unlockWriteThread
      ensures rfidOut.vec == []
      ensures dataOut.vec == old(dataOut.vec) + Sent(old(rfidOut.vec), RFID_PADDING)
      ensures unlockWriteThread == old(unlockWriteThread) + |old(rfidOut.vec)|
    {
      ghost var all := dataOut.vec + Sent(rfidOut.vec, RFID_PADDING);
      while !rfidOut.Empty()
        invariant Fit(rfidOut.vec, RFID_PADDING)
        invariant dataOut.vec + Sent(rfidOut.vec, RFID_PADDING) == all
        invariant unlockWriteThread + |rfidOut.vec| == old(unlockWriteThread) + |old(rfidOut.vec)|
        decreases |rfidOut.vec|
      {
        SentStep(dataOut.vec, rfidOut.vec, RFID_PADDING);
        var rfidPacket := rfidOut.ReadOne();
        WriteFrame(rfidPacket, RFID_PADDING, 4 + 3 + rfidPacket.size);
      }
      Unit(dataOut.vec);
    }

    /** The same for the motor module, whose frames carry padding. The copy
        has to stay within the packet. */
    method SendMotor()
      requires Valid() && Fit(motorOut.vec, MOTOR_PADDING)
      modifies motorOut, dataOut, this`unlockWriteThread
      ensures motorOut.vec == []
      ensures dataOut.vec == old(dataOut.vec) + Sent(old(motorOut.vec), MOTOR_PADDING)
      ensures unlockWriteThread == old(unlockWriteThread) + |old(motorOut.vec)|
    {
      ghost var all := dataOut.vec + Sent(motorOut.vec, MOTOR_PADDING);
      while !motorOut.Empty()
        invariant Fit(motorOut.vec, MOTOR_PADDING)
        invariant dataOut.vec + Sent(motorOut.vec, MOTOR_PADDING) == all
        invariant unlockWriteThread + |motorOut.vec| == old(unlockWriteThread) + |old(motorOut.vec)|
        decreases |motorOut.vec|
      {
        SentStep(dataOut.vec, motorOut.vec, MOTOR_PADDING);
        var motorPacket := motorOut.ReadOne();
        WriteFrame(motorPacket, MOTOR_PADDING, PACKET_SIZE + motorPacket.size);
      }
      Unit(dataOut.vec);
    }

    /** One pass of the worker over both modules' packets. */
    method SendAll()
      requires Valid() && Fit(rfidOut.vec, RFID_PADDING) && Fit(motorOut.vec, MOTOR_PADDING)
      modifies rfidOut, motorOut, dataOut, this`unlockWriteThread
      ensures rfidOut.vec == [] && motorOut.vec == []
      ensures dataOut.vec ==
              old(dataOut.vec) + (Sent(old(rfidOut.vec), RFID_PADDING) + Sent(old(motorOut.vec), MOTOR_PADDING))
      ensures unlockWriteThread == old(unlockWriteThread) + |old(rfidOut.vec)| + |old(motorOut.vec)|
    {
      Assoc(dataOut.vec, Sent(rfidOut.vec, RFID_PADDING), Sent(motorOut.vec, MOTOR_PADDING));
      SendRfid();
      SendMotor();
    }
  }

  lemma {:induction false} SentStep(out: seq<byte>, ps: seq<Packet>, padding: nat)
    requires ps != [] && Fit(ps, padding)
    ensures OutFrame(ps[0], padding).Valid() && Fit(ps[1..], padding)
    ensures out + Sent(ps, padding) == out + OutFrame(ps[0], padding).Encoded() + Sent(ps[1..], padding)
  {
    Assoc(out, OutFrame(ps[0], padding).Encoded(), Sent(ps[1..], padding));
  }
}
