/** The packets of the reader board's protocol, on top of the serial stream:
    `encapsulate`, `decapsulate` and `WaitForPacket`. */
module SerialPackets {
  import opened Bytes
  import opened SerialComm
  import opened SerialViews
  import opened SerialReads
  import opened SerialTimeouts

  const TX_BUFFER_SIZE: nat := 50

  /** What a 16-bit number becomes in a `short`. */
  function ToShort(n: nat): (r: int)
    requires n < 0x1_0000
    ensures -0x8000 <= r < 0x8000 && (r == n || r + 0x1_0000 == n)
  {
    if n < 0x8000 then n else n - 0x1_0000
  }

  /** A packet as it stands on the line: header, then a body that repeats its
      two size fields. */
  datatype LinePacket = LinePacket(tid: byte, reserved: (byte, byte), id: byte, txSize: nat, data: seq<byte>) {
    /** The payload, five bytes longer than the data, fits its length byte. */
    predicate Valid() {
      txSize < 0x1_0000 && |data| <= 250
    }

    function Header(): (h: seq<byte>)
      requires Valid()
      ensures |h| == 4
    {
      [tid, reserved.0, reserved.1, (|data| + 5) as byte]
    }

    function Body(): (b: seq<byte>)
      requires Valid()
      ensures |b| == |data| + 5
    {
      [id, High(txSize), Low(txSize), High(|data|), Low(|data|)] + data
    }

    function Encoded(): seq<byte>
      requires Valid()
    {
      Header() + Body()
    }
  }

  /** What the driver keeps of a packet. */
  datatype ProtocolPacket =
    ProtocolPacket(tid: byte, payloadSize: byte, id: byte, txSize: int, rxSize: int, data: seq<byte>)

  datatype WaitResult =
    | Received(packet: ProtocolPacket)
    | Dataless(packet: ProtocolPacket) // a negative size: no memory is allocated, no data is copied
    | Failed    // the -1 of the source
    | Overrun   // the size field makes memcpy leave the buffer
    | NeverEnds // the call does not return

  /** What the fields of a received header and body say. */
  function Interpret(header: seq<byte>, body: seq<byte>): WaitResult
    requires |header| == 4 && |body| >= 5
  {
    var rxSize := ToShort(BigEndian16(body[3], body[4]));
    var txSize := ToShort(BigEndian16(body[1], body[2]));
    if rxSize < 0 then Dataless(ProtocolPacket(header[0], header[3], body[0], txSize, rxSize, []))
    else if 5 + rxSize > |body| then Overrun
    else Received(ProtocolPacket(header[0], header[3], body[0], txSize, rxSize, body[5..5 + rxSize]))
  }

  function Delivered(p: LinePacket): ProtocolPacket
    requires p.Valid()
  {
    ProtocolPacket(p.tid, (|p.data| + 5) as byte, p.id, ToShort(p.txSize), |p.data|, p.data)
  }

  lemma {:induction false} HeadOfBody(head: seq<byte>, data: seq<byte>)
    requires |head| == 5
    ensures var b := head + data;
      && b[0] == head[0] && b[1] == head[1] && b[2] == head[2] && b[3] == head[3] && b[4] == head[4]
      && b[5..5 + |data|] == data
  {}

  lemma {:induction false} InterpretFields(header: seq<byte>, id: byte, t1: byte, t0: byte, r1: byte, r0: byte,
                                           data: seq<byte>)
    requires |header| == 4 && |data| <= 250 && BigEndian16(r1, r0) == |data|
    ensures Interpret(header, [id, t1, t0, r1, r0] + data) ==
            Received(ProtocolPacket(header[0], header[3], id, ToShort(BigEndian16(t1, t0)), |data|, data))
  {
    HeadOfBody([id, t1, t0, r1, r0], data);
  }

  lemma {:induction false} InterpretEncoded(p: LinePacket)
    requires p.Valid()
    ensures Interpret(p.Header(), p.Body()) == Received(Delivered(p))
  {
    SizeRoundTrip(p.txSize);
    SizeRoundTrip(|p.data|);
    InterpretFields(p.Header(), p.id, High(p.txSize), Low(p.txSize), High(|p.data|), Low(|p.data|), p.data);
  }

  function AllEncoded(ps: seq<LinePacket>): seq<byte>
    requires forall p <- ps :: p.Valid()
  {
    if ps == [] then [] else ps[0].Encoded() + AllEncoded(ps[1..])
  }

  function AllDelivered(ps: seq<LinePacket>): (ds: seq<ProtocolPacket>)
    requires forall p <- ps :: p.Valid()
    ensures |ds| == |ps|
  {
    if ps == [] then [] else [Delivered(ps[0])] + AllDelivered(ps[1..])
  }

  /** The nine bytes in front of the data of a packet to be transmitted. */
  function Header(id: byte, protocol: byte, txSize: nat, rxSize: nat): (h: seq<byte>)
    requires txSize < 0x1_0000 && rxSize < 0x1_0000
    ensures |h| == 9
  {
    [id, 0, 0, ((5 + txSize) % 256) as byte, protocol, High(txSize), Low(txSize), High(rxSize), Low(rxSize)]
  }

  /** The bytes of the n-th packet prepared for transmission. */
  function Prepared(n: nat, protocol: byte, rxSize: nat, data: seq<byte>): (b: seq<byte>)
    requires |data| < 0x1_0000 && rxSize < 0x1_0000
    ensures |b| == 9 + |data|
  {
    Header((n % 16) as byte, protocol, |data|, rxSize) + data
  }

  /** `decapsulate` on a whole packet: the same fields at the same places, but
      the caller's memory, so that a negative size copies far too much. */
  function Unpacked(rxBuffer: seq<byte>): WaitResult
    requires |rxBuffer| >= 9
  {
    var r := Interpret(rxBuffer[..4], rxBuffer[4..]);
    if r.Dataless? then Overrun else r
  }

  /** What is prepared with equal transmit and receive sizes is a packet of the
      line protocol. */
  lemma {:induction false} PreparedIsLinePacket(n: nat, protocol: byte, data: seq<byte>)
    requires 9 + |data| <= TX_BUFFER_SIZE
    ensures var p := LinePacket((n % 16) as byte, (0, 0), protocol, |data|, data);
      p.Valid() && Prepared(n, protocol, |data|, data) == p.Encoded()
  {
    var id, payload, hi, lo := (n % 16) as byte, (|data| + 5) as byte, High(|data|), Low(|data|);
    assert [id, 0, 0, payload, protocol, hi, lo, hi, lo] + data ==
           [id, 0, 0, payload] + ([protocol, hi, lo, hi, lo] + data);
  }

  /** Where the fields of a prepared packet stand. */
  lemma {:induction false} PreparedFields(n: nat, protocol: byte, rxSize: nat, data: seq<byte>)
    requires 9 + |data| <= TX_BUFFER_SIZE && rxSize < 0x1_0000
    ensures var b := Prepared(n, protocol, rxSize, data);
      && b[0] as nat == n % 16 && b[1] == b[2] == 0 && b[3] as nat == 5 + |data| && b[4] == protocol
      && 256 * b[5] as nat + b[6] as nat == |data| && 256 * b[7] as nat + b[8] as nat == rxSize
      && b[9..] == data
  {
    var head := Header((n % 16) as byte, protocol, |data|, rxSize);
    var b := Prepared(n, protocol, rxSize, data);
    HeaderFields((n % 16) as byte, protocol, |data|, rxSize);
    DropPrefix(head, data);
    assert b == head + data;
    assert forall k :: 0 <= k < 9 ==> b[k] == head[k];
  }

  lemma {:induction false} HeaderFields(id: byte, protocol: byte, txSize: nat, rxSize: nat)
    requires txSize <= 250 && rxSize < 0x1_0000
    ensures var h := Header(id, protocol, txSize, rxSize);
      && h[0] == id && h[1] == h[2] == 0 && h[3] as nat == 5 + txSize && h[4] == protocol
      && 256 * h[5] as nat + h[6] as nat == txSize && 256 * h[7] as nat + h[8] as nat == rxSize
  {
    SizeRoundTrip(txSize);
    SizeRoundTrip(rxSize);
  }

  /** Decapsulate gives back what encapsulate was given, with as much of the data
      as the receive size says; if that is more than there is, it leaves the
      packet. */
  lemma {:induction false} PreparedUnpacks(n: nat, protocol: byte, rxSize: nat, data: seq<byte>)
    requires 9 + |data| <= TX_BUFFER_SIZE && rxSize < 0x1_0000
    ensures Unpacked(Prepared(n, protocol, rxSize, data)) ==
            if rxSize > |data| then Overrun
            else Received(ProtocolPacket((n % 16) as byte, (|data| + 5) as byte, protocol,
                                         |data|, rxSize, data[..rxSize]))
  {
    var b := Prepared(n, protocol, rxSize, data);
    PreparedFields(n, protocol, rxSize, data);
    UnpackedFields(b, rxSize, data);
  }

  lemma {:induction false} UnpackedFields(b: seq<byte>, rxSize: nat, data: seq<byte>)
    requires |b| == 9 + |data| && b[9..] == data && |data| <= 250
    requires BigEndian16(b[5], b[6]) == |data| && BigEndian16(b[7], b[8]) == rxSize
    ensures Unpacked(b) == if rxSize > |data| then Overrun
                           else Received(ProtocolPacket(b[0], b[3], b[4], |data|, rxSize, data[..rxSize]))
  {
    var body := b[4..];
    assert forall k :: 0 <= k < |body| ==> body[k] == b[k + 4];
    if rxSize <= |data| {
      assert body[5..5 + rxSize] == data[..rxSize];
    }
  }

  lemma {:induction false} LowBits(n: nat)
    ensures (n % 256) % 16 == n % 16
  {
    var q, r := n / 256, n % 256;
    Residue16(n, 16 * q + r / 16, r % 16);
  }

  lemma {:induction false} Residue16(n: nat, k: nat, r: nat)
    requires n == 16 * k + r && r < 16
    ensures n % 16 == r
  {}

  lemma {:induction false} WrapsAround(n: nat)
    ensures (n % 256 + 1) % 256 == (n + 1) % 256
  {
    var q, r := n / 256, n % 256;
    if r == 255 {
      assert n + 1 == 256 * (q + 1);
    } else {
      assert n + 1 == 256 * q + (r + 1);
    }
  }

  /** The driver's static state: the transaction counter and the transmit
      buffer, which every packet overwrites. */
  class Driver {
    const comm: SerialHelper
    var tid: byte
    const txBuffer: array<byte>
    ghost var calls: nat

    ghost predicate Valid()
      reads this, comm, comm.buffer, txBuffer
    {
      comm.Valid() && comm.state == Started && txBuffer.Length == TX_BUFFER_SIZE && tid as nat == calls % 256
    }

    constructor (comm: SerialHelper)
      requires comm.Valid() && comm.state == Started
      ensures Valid() && fresh(txBuffer) && calls == 0 && this.comm == comm
    {
      this.comm, tid, calls := comm, 0, 0;
      txBuffer := new byte[TX_BUFFER_SIZE](i => 0);
    }

    /** The first nine bytes of the transmit buffer. */
    method WriteHeader(id: byte, payload: byte, protocol: byte, t1: byte, t0: byte, r1: byte, r0: byte)
      requires txBuffer.Length == TX_BUFFER_SIZE
      modifies txBuffer
      ensures txBuffer[0] == id && txBuffer[1] == txBuffer[2] == 0 && txBuffer[3] == payload && txBuffer[4] == protocol
      ensures txBuffer[5] == t1 && txBuffer[6] == t0 && txBuffer[7] == r1 && txBuffer[8] == r0
      ensures txBuffer[9..] == old(txBuffer[9..])
    {
      txBuffer[0] := id;
      txBuffer[1] := 0;
      txBuffer[2] := 0;
      txBuffer[3] := payload;
      txBuffer[4] := protocol;
      txBuffer[5] := t1;
      txBuffer[6] := t0;
      txBuffer[7] := r1;
      txBuffer[8] := r0;
    }

    method CopyData(data: seq<byte>, n: nat)
      requires txBuffer.Length == TX_BUFFER_SIZE && n <= |data| && 9 + n <= TX_BUFFER_SIZE
      modifies txBuffer
      ensures txBuffer[..9] == old(txBuffer[..9])
      ensures txBuffer[9..9 + n] == data[..n]
      ensures txBuffer[9 + n..] == old(txBuffer[9 + n..])
    {
      forall i | 0 <= i < n {
        txBuffer[9 + i] := data[i];
      }
    }

    /** Prepares a packet. The n-th one carries n modulo 16, across the wrap
        of the 8-bit counter. The data has to fit the buffer. */
    method Encapsulate(protocol: byte, txSize: nat, rxSize: nat, data: seq<byte>)
      requires Valid() && txSize < 0x1_0000 && rxSize < 0x1_0000
      requires txSize <= |data| && 9 + txSize <= TX_BUFFER_SIZE
      modifies txBuffer, this`tid, this`calls
      ensures Valid() && calls == old(calls) + 1
      ensures var p := Prepared(old(calls), protocol, rxSize, data[..txSize]);
        txBuffer[..9 + txSize] == p
      ensures txBuffer[0] as nat == old(calls) % 16 && txBuffer[1] == txBuffer[2] == 0
      ensures txBuffer[3] as nat == 5 + txSize && txBuffer[4] == protocol
      ensures 256 * txBuffer[5] as nat + txBuffer[6] as nat == txSize
      ensures 256 * txBuffer[7] as nat + txBuffer[8] as nat == rxSize
      ensures txBuffer[9..9 + txSize] == data[..txSize]
      ensures txBuffer[9 + txSize..] == old(txBuffer[9 + txSize..])
    {
      ghost var n := calls;
      var id := NextTid();
      FillBuffer(id, protocol, txSize, rxSize, data);
      assert comm.Valid();
      ghost var b := Prepared(n, protocol, rxSize, data[..txSize]);
      PreparedFields(n, protocol, rxSize, data[..txSize]);
      assert forall k :: 0 <= k < 9 ==> txBuffer[k] == b[k];
      assert txBuffer[9..9 + txSize] == b[9..];
    }

    /** Header and data, behind the transaction number. */
    method FillBuffer(id: byte, protocol: byte, txSize: nat, rxSize: nat, data: seq<byte>)
      requires txBuffer.Length == TX_BUFFER_SIZE && txSize < 0x1_0000 && rxSize < 0x1_0000
      requires txSize <= |data| && 9 + txSize <= TX_BUFFER_SIZE
      modifies txBuffer
      ensures txBuffer[..9 + txSize] == Header(id, protocol, txSize, rxSize) + data[..txSize]
      ensures txBuffer[9 + txSize..] == old(txBuffer[9 + txSize..])
    {
      var payload := ((5 + txSize) % 256) as byte;
      WriteHeader(id, payload, protocol, High(txSize), Low(txSize), High(rxSize), Low(rxSize));
      assert txBuffer[..9] == Header(id, protocol, txSize, rxSize);
      CopyData(data, txSize);
      TakeSplit(txBuffer[..], 9, 9 + txSize);
      assert txBuffer[..9 + txSize] == txBuffer[..9] + txBuffer[9..9 + txSize];
    }

    /** The next transaction number, of four bits. */
    method NextTid() returns (id: byte)
      requires tid as nat == calls % 256
      modifies this`tid, this`calls
      ensures calls == old(calls) + 1 && tid as nat == calls % 256
      ensures id as nat == old(calls) % 16
    {
      LowBits(calls);
      WrapsAround(calls);
      id := tid % 16;
      tid := ((tid as nat + 1) % 256) as byte;
      calls := calls + 1;
    }

    /** `while (Read_N(...) != S_OK);`: every timeout throws away what has been
        read so far. */
    method ReadBody(payloadSize: nat, timeout: nat)
        returns (r: ReadResult, ghost dropped: seq<byte>, ghost body: seq<byte>)
      requires Valid()
      modifies comm`eventFlag, comm`line, comm`due, comm`late, comm.buffer
      ensures Valid() && old(comm.Stream()) == dropped + body + comm.Stream()
      ensures r.Success? || r.Blocked?
      ensures r.Success? ==> r.data == body && |body| == payloadSize
      ensures r.Blocked? ==> OutOfSight(comm.Seen())
      ensures old(comm.late) ==> comm.late
      ensures old(comm.Punctual()) ==> comm.Punctual() && dropped == []
      ensures old(comm.Punctual()) && r.Blocked? ==> |body| < payloadSize
    {
      dropped := [];
      r, body := comm.ReadN(payloadSize, timeout);
      Unit(body);
      while !r.Success?
        invariant Valid() && (r.Success? || r.NoData? || r.Blocked?)
        invariant old(comm.Stream()) == dropped + body + comm.Stream()
        invariant r.Success? ==> r.data == body && |body| == payloadSize
        invariant r.Blocked? ==> OutOfSight(comm.Seen())
        invariant old(comm.late) ==> comm.late
        invariant r.NoData? ==> TIME_OUT !in comm.eventFlag
        invariant old(comm.Punctual()) ==> comm.Punctual() && dropped == [] && !r.NoData?
        invariant old(comm.Punctual()) && r.Blocked? ==> |body| < payloadSize
        decreases |comm.line|, r.NoData?
      {
        if r.Blocked? {
          return;
        }
        dropped := dropped + body;
        r, body := comm.ReadN(payloadSize, timeout);
        Assoc(dropped, body, comm.Stream());
      }
    }

    /** Waits for one packet. `header`, `dropped` and `body` are the bytes the
        call takes from the stream: timeouts while it waits for the body throw
        bytes away. */
    method WaitForPacket(timeout: nat)
        returns (r: WaitResult, ghost header: seq<byte>, ghost dropped: seq<byte>, ghost body: seq<byte>)
      requires Valid()
      modifies comm`eventFlag, comm`line, comm`due, comm`late, comm.buffer
      ensures Valid() && old(comm.Stream()) == header + (dropped + body + comm.Stream())
      ensures r.Received? || r.Dataless? || r.Overrun? ==>
        |header| == 4 && header[3] >= 5 && |body| == header[3] as nat && r == Interpret(header, body)
      ensures r.NeverEnds? ==> OutOfSight(comm.Seen())
      ensures old(comm.late) ==> comm.late
      ensures r.Failed? ==> dropped == body == [] && (|header| < 4 || (|header| == 4 && header[3] < 5))
      ensures r.Failed? && |header| < 4 <==> ReadFails(old(comm.Seen()), 4, timeout)
      ensures old(comm.Punctual()) ==> comm.Punctual() && dropped == [] && (r.Failed? ==> |header| == 4)
      ensures old(comm.Punctual()) && r.NeverEnds? && !comm.late ==>
        |old(comm.Stream())| < 4 || |old(comm.Stream())| < 4 + old(comm.Stream())[3] as nat
    {
      var r0;
      r0, header := comm.ReadN(4, timeout);
      Unit(comm.Stream());
      if r0.Blocked? {
        return NeverEnds, header, [], [];
      }
      if r0.NoData? {
        return Failed, header, [], [];
      }
      r, dropped, body := FinishPacket(r0.data, timeout);
    }

    /** The rest of a packet whose header has come in. */
    method FinishPacket(header: seq<byte>, timeout: nat)
        returns (r: WaitResult, ghost dropped: seq<byte>, ghost body: seq<byte>)
      requires Valid() && |header| == 4
      modifies comm`eventFlag, comm`line, comm`due, comm`late, comm.buffer
      ensures Valid() && old(comm.Stream()) == dropped + body + comm.Stream()
      ensures r.Received? || r.Dataless? || r.Overrun? ==>
        header[3] >= 5 && |body| == header[3] as nat && r == Interpret(header, body)
      ensures r.NeverEnds? ==> OutOfSight(comm.Seen())
      ensures old(comm.late) ==> comm.late
      ensures r.Failed? <==> header[3] < 5
      ensures r.Failed? ==> dropped == body == []
      ensures old(comm.Punctual()) ==> comm.Punctual() && dropped == []
      ensures old(comm.Punctual()) && r.NeverEnds? ==> |body| < header[3] as nat
    {
      dropped, body := [], [];
      Unit(comm.Stream());
      var payloadSize := header[3];
      if payloadSize < 5 {
        return Failed, [], [];
      }
      var r1;
      r1, dropped, body := ReadBody(payloadSize as nat, timeout);
      if r1.Blocked? {
        return NeverEnds, dropped, body;
      }
      r := Interpret(header, r1.data);
    }

    /** Receives as many packets as `ps` has. If the stream begins with those
        packets and no wait runs out of time, they come out one by one, and
        exactly their bytes are consumed. Only after a late reset the driver can
        get stuck before the last one. */
    method ReceiveAll(ghost ps: seq<LinePacket>, count: nat, timeout: nat, ghost rest: seq<byte>)
        returns (got: seq<ProtocolPacket>)
      requires Valid() && comm.Punctual() && count == |ps|
      requires (forall p <- ps :: p.Valid()) && comm.Stream() == AllEncoded(ps) + rest
      modifies comm`eventFlag, comm`line, comm`due, comm`late, comm.buffer
      ensures Valid() && comm.Punctual() && got <= AllDelivered(ps)
      ensures |got| == count ==> comm.Stream() == rest
      ensures |got| < count ==> comm.late
    {
      got := [];
      ghost var left := ps;
      Unit(AllDelivered(ps));
      while |got| < count
        invariant Valid() && comm.Punctual() && |got| + |left| == count
        invariant forall p <- left :: p.Valid()
        invariant comm.Stream() == AllEncoded(left) + rest
        invariant got + AllDelivered(left) == AllDelivered(ps)
      {
        ghost var p := left[0];
        NextPacket(left, rest);
        var r;
        ghost var header, dropped, body;
        r, header, dropped, body := WaitForPacket(timeout);
        Unit(body);
        if !r.NeverEnds? || !comm.late {
          OnePacket(p, AllEncoded(left[1..]) + rest, r, header, body, comm.Stream());
        }
        if r.NeverEnds? {
          return;
        }
        Assoc(got, [Delivered(p)], AllDelivered(left[1..]));
        got := got + [r.packet];
        left := left[1..];
      }
      Unit(rest);
      Unit(got);
    }
  }

  /** From the opening of the port: whatever chunks the packets come in, if no
      wait runs out of time and no reset is late, they are all received. */
  method ReceiveFromPort(line: seq<Moment>, ghost ps: seq<LinePacket>, count: nat, timeout: nat,
                         ghost rest: seq<byte>)
      returns (got: seq<ProtocolPacket>, comm: SerialHelper)
    requires AllInTurn(false, line) && NoExpiry(line) && count == |ps|
    requires (forall p <- ps :: p.Valid()) && Future(line) == AllEncoded(ps) + rest
    ensures got <= AllDelivered(ps) && (|got| < count ==> comm.late)
  {
    comm := new SerialHelper(line);
    comm.Start();
    var driver := new Driver(comm);
    got := driver.ReceiveAll(ps, count, timeout, rest);
  }

  lemma {:induction false} NextPacket(ps: seq<LinePacket>, rest: seq<byte>)
    requires ps != [] && forall p <- ps :: p.Valid()
    ensures ps[0].Valid() && forall p <- ps[1..] :: p.Valid()
    ensures AllEncoded(ps) + rest == ps[0].Encoded() + (AllEncoded(ps[1..]) + rest)
  {
    Assoc(ps[0].Encoded(), AllEncoded(ps[1..]), rest);
  }

  /** A timely call on a stream that begins with a packet returns it. */
  lemma {:induction false} OnePacket(p: LinePacket, later: seq<byte>, r: WaitResult, header: seq<byte>,
                                     body: seq<byte>, left: seq<byte>)
    requires p.Valid()
    requires p.Encoded() + later == header + (body + left)
    requires r.Received? || r.Dataless? || r.Overrun? ==>
      |header| == 4 && header[3] >= 5 && |body| == header[3] as nat && r == Interpret(header, body)
    requires r.Failed? ==> |header| == 4 && header[3] < 5
    requires var s := p.Encoded() + later; r.NeverEnds? ==> |s| < 4 || |s| < 4 + s[3] as nat
    ensures r == Received(Delivered(p)) && left == later
  {
    var s := p.Encoded() + later;
    Assoc(p.Header(), p.Body(), later);
    SamePrefix(p.Header(), p.Body() + later, header, body + left);
    assert s[3] == p.Header()[3];
    if |header| == 4 && |body| == |p.Body()| {
      SamePrefix(p.Body(), later, body, left);
      InterpretEncoded(p);
    }
  }

  lemma {:induction false} SamePrefix(a: seq<byte>, b: seq<byte>, c: seq<byte>, d: seq<byte>)
    requires a + b == c + d
    ensures |a| == |c| ==> a == c && b == d
  {
    if |a| == |c| {
      DropPrefix(a, b);
      DropPrefix(c, d);
    }
  }
}
