/** What the parts give together: commands from the client to the motor, and
    records and reports from the server to the client. */
module EndToEnd {
  import opened Bytes
  import opened SafeFifo
  import opened Wire
  import opened ServerFrames
  import opened Client
  import opened ClientRoundTrip
  import opened NetworkServer
  import opened MotorModule
  import P = OutboundProtocol

  // ----- motor commands -----

  /** The speeds the client can print: the upper byte has to be one. */
  predicate Printable(speed: int) {
    -0x1_0000 < speed < 0x1_0000
  }

  function Magnitude(speed: int): nat {
    if speed < 0 then -speed else speed
  }

  /** The bytes `motor_speed` sends. */
  function CommandMotor(speed: int): seq<byte>
    requires Printable(speed)
  {
    var clockwise: byte := if speed < 0 then 0 else 1;
    [0x41, 0x42, 0x13, 0x56, 1, 0, 5, 0, 3, High(Magnitude(speed)), Low(Magnitude(speed)), clockwise]
  }

  function CommandMessage(speed: int): Short
    requires Printable(speed)
  {
    Message(CMD_MOTOR, [CMD_CHANGE_SPEED, 3, High(Magnitude(speed)), Low(Magnitude(speed)), if speed < 0 then 0 else 1])
  }

  lemma {:induction false} CommandIsFrame(speed: int)
    requires Printable(speed)
    ensures CommandMotor(speed) == Frame(CommandMessage(speed))
  {
    var m := CommandMessage(speed);
    var head := [0x41, 0x42, 0x13, 0x56, 1, 0, 5];
    assert High(5) == 0 && Low(5) == 5;
    assert Header(m) == head;
    assert CommandMotor(speed) == head + m.payload;
  }

  function AllCommands(speeds: seq<int>): seq<byte>
    requires forall s <- speeds :: Printable(s)
  {
    if speeds == [] then [] else CommandMotor(speeds[0]) + AllCommands(speeds[1..])
  }

  function AllMessages(speeds: seq<int>): (ms: seq<Short>)
    requires forall s <- speeds :: Printable(s)
    ensures |ms| == |speeds|
    ensures forall k :: 0 <= k < |speeds| ==> Printable(speeds[k]) && ms[k] == CommandMessage(speeds[k])
  {
    if speeds == [] then [] else [CommandMessage(speeds[0])] + AllMessages(speeds[1..])
  }

  lemma {:induction false} CommandsAreStream(speeds: seq<int>)
    requires forall s <- speeds :: Printable(s)
    ensures AllCommands(speeds) == Stream(AllMessages(speeds))
    ensures OfTypes(AllMessages(speeds), {1}) == AllMessages(speeds)
    ensures OfTypes(AllMessages(speeds), {0, 4}) == []
  {
    if speeds != [] {
      CommandIsFrame(speeds[0]);
      CommandsAreStream(speeds[1..]);
      var ms := AllMessages(speeds);
      assert ms[0] == CommandMessage(speeds[0]) && ms[1..] == AllMessages(speeds[1..]);
    }
  }

  lemma {:induction false} ContentsAt(ps: seq<Packet>, k: nat)
    requires AllValid(ps) && k < |ps|
    ensures ps[k].Valid() && Contents(ps)[k] == ps[k].Content()
  {
    assert ps[k] in ps;
    if k > 0 {
      assert forall p <- ps[1..] :: p in ps;
      ContentsAt(ps[1..], k - 1);
    }
  }

  lemma {:induction false} MessageOrdersSpeed(speed: int)
    requires Printable(speed)
    ensures SpeedCommand(CommandMessage(speed)) && Ordered(CommandMessage(speed)) == Order(Magnitude(speed), speed >= 0)
  {
    SizeRoundTrip(Magnitude(speed));
  }

  /** Any sequence of speed commands, printed by the client one after the
      other, framed, dispatched, queued, decoded and executed: the commanded
      speed and direction are those of the last one. */
  method CommandsReachMotor(net: Network, motor: Motor, ghost speeds: seq<int>)
    requires net.Valid() && motor.Valid() && motor.fifoIn == net.motorIn && net.motorIn.vec == []
    requires speeds != [] && (forall s <- speeds :: Printable(s)) && net.dataIn.vec == AllCommands(speeds)
    modifies net.dataIn, net.rfidIn, net.motorIn, motor, motor.args
    ensures net.Valid() && net.dataIn.vec == [] && net.motorIn.vec == []
    ensures Contents(net.rfidIn.vec) == old(Contents(net.rfidIn.vec))
    ensures var last := speeds[|speeds| - 1]; motor.Current() == Order(Magnitude(last), last >= 0)
  {
    ghost var ms := AllMessages(speeds);
    CommandsAreStream(speeds);
    net.ServeInput(ms);
    Unit(ms);
    Unit(Contents(net.rfidIn.vec));
    MotorObeysLast(motor, speeds);
  }

  /** The motor's part of it. */
  method MotorObeysLast(motor: Motor, ghost speeds: seq<int>)
    requires motor.Valid() && speeds != [] && forall s <- speeds :: Printable(s)
    requires AllValid(motor.fifoIn.vec) && Contents(motor.fifoIn.vec) == AllMessages(speeds)
    modifies motor.fifoIn, motor, motor.args
    ensures motor.fifoIn.vec == []
    ensures var last := speeds[|speeds| - 1]; motor.Current() == Order(Magnitude(last), last >= 0)
  {
    ghost var ps := motor.fifoIn.vec;
    AllSpeedCommands(speeds, ps);
    LastCommandWins(motor.Cmd(), motor.Current(), ps);
    MessageOrdersSpeed(speeds[|speeds| - 1]);
    motor.Work();
  }

  lemma {:induction false} SpeedCommandAt(speeds: seq<int>, ps: seq<Packet>, k: nat)
    requires forall s <- speeds :: Printable(s)
    requires AllValid(ps) && Contents(ps) == AllMessages(speeds) && k < |ps|
    ensures |ps| == |speeds| && Printable(speeds[k])
    ensures ps[k].Valid() && ps[k].Content() == CommandMessage(speeds[k]) && SpeedCommand(ps[k].Content())
  {
    ContentsAt(ps, k);
    MessageOrdersSpeed(speeds[k]);
  }

  lemma {:induction false} AllSpeedCommands(speeds: seq<int>, ps: seq<Packet>)
    requires forall s <- speeds :: Printable(s)
    requires AllValid(ps) && Contents(ps) == AllMessages(speeds)
    ensures forall p <- ps :: p.Valid() && SpeedCommand(p.Content())
    ensures |ps| == |speeds|
    ensures ps != [] ==> Printable(speeds[|ps| - 1]) && ps[|ps| - 1].Content() == CommandMessage(speeds[|ps| - 1])
  {
    forall p | p in ps
      ensures p.Valid() && SpeedCommand(p.Content())
    {
      var k :| 0 <= k < |ps| && ps[k] == p;
      SpeedCommandAt(speeds, ps, k);
    }
    if ps != [] {
      SpeedCommandAt(speeds, ps, |ps| - 1);
    }
  }

  // ----- scan records -----

  const CMD_TAG_DETECTED: byte := 0x16

  /** The low k bytes of a number, least significant first. */
  function LittleEndian(n: nat, k: nat): (bs: seq<byte>)
    ensures |bs| == k
  {
    if k == 0 then [] else [(n % 256) as byte] + LittleEndian(n / 256, k - 1)
  }

  /** The client's sum of shifted bytes. */
  function FromLittleEndian(bs: seq<byte>): nat {
    if bs == [] then 0 else bs[0] as nat + 256 * FromLittleEndian(bs[1..])
  }

  function Pow256(k: nat): (p: nat)
    ensures p > 0
  {
    if k == 0 then 1 else 256 * Pow256(k - 1)
  }

  /** What is left of n without its low k bytes. */
  function HighPart(n: nat, k: nat): nat {
    if k == 0 then n else HighPart(n / 256, k - 1)
  }

  lemma {:induction false} LittleEndianSplits(n: nat, k: nat)
    ensures n == FromLittleEndian(LittleEndian(n, k)) + Pow256(k) * HighPart(n, k)
    ensures FromLittleEndian(LittleEndian(n, k)) < Pow256(k)
  {
    if k > 0 {
      LittleEndianSplits(n / 256, k - 1);
      FirstByteFirst(n, FromLittleEndian(LittleEndian(n / 256, k - 1)), Pow256(k - 1), HighPart(n / 256, k - 1));
      assert LittleEndian(n, k)[1..] == LittleEndian(n / 256, k - 1);
    }
  }

  lemma {:induction false} FirstByteFirst(n: nat, low: nat, p: nat, h: nat)
    requires n / 256 == low + p * h && low < p
    ensures n == n % 256 + 256 * low + (256 * p) * h
    ensures n % 256 + 256 * low < 256 * p
  {
    assert (256 * p) * h == 256 * (p * h);
  }

  lemma {:induction false} LittleEndianPrefix(n: nat, k: nat, j: nat)
    requires j <= k
    ensures LittleEndian(n, k)[..j] == LittleEndian(n, j)
  {
    if j > 0 {
      LittleEndianPrefix(n / 256, k - 1, j - 1);
      TakeCons(LittleEndian(n, k), j);
    }
  }

  /** The record the scan thread queues: the bytes of a 64-bit timestamp and of
      a 16-bit tag count, as they lie in memory. */
  function ScanRecord(timestamp: nat, tagCount: nat): Short
    requires tagCount < 0x1_0000
  {
    Message(INFO_RFID, [CMD_TAG_DETECTED] + LittleEndian(timestamp, 8) + [Low(tagCount), High(tagCount)])
  }

  /** What the client makes of the data of such a record: it adds up seven of
      the eight timestamp bytes. */
  function ReadTimestamp(data: seq<byte>): nat
    requires |data| >= 8
  {
    FromLittleEndian(data[1..8])
  }

  function ReadTag(data: seq<byte>): nat
    requires |data| >= 11
  {
    LittleEndian16(data[9], data[10])
  }

  /** The record byte by byte: type 2, 0x16, the timestamp and the tag count,
      each least significant byte first. */
  lemma {:induction false} RecordBytes(timestamp: nat, tagCount: nat, i: nat)
    requires tagCount < 0x1_0000 && i < 8
    ensures var m := ScanRecord(timestamp, tagCount);
      && m.typ == 2 && |m.payload| == 11 && m.payload[0] == 0x16
      && m.payload[1 + i] as nat == HighPart(timestamp, i) % 256
      && m.payload[9] as nat == tagCount % 256 && m.payload[10] as nat == tagCount / 256
  {
    LittleEndianAt(timestamp, 8, i);
    var le := LittleEndian(timestamp, 8);
    assert ([CMD_TAG_DETECTED] + le + [Low(tagCount), High(tagCount)])[1 + i] == le[i];
  }

  lemma {:induction false} LittleEndianAt(n: nat, k: nat, i: nat)
    requires i < k
    ensures LittleEndian(n, k)[i] as nat == HighPart(n, i) % 256
  {
    if i > 0 {
      LittleEndianAt(n / 256, k - 1, i - 1);
    }
  }

  lemma {:induction false} ModuloConstant(n: nat, h: nat, c: nat)
    requires n == c + 0x100_0000_0000_0000 * h && c < 0x100_0000_0000_0000
    ensures n % 0x100_0000_0000_0000 == c
  {}

  /** The client reads the exact tag count, and the timestamp modulo 2^56: the
      timestamp itself exactly when that is all of it. */
  lemma {:induction false} RecordFidelity(timestamp: nat, tagCount: nat)
    requires tagCount < 0x1_0000
    ensures var data := ScanRecord(timestamp, tagCount).payload;
      && |data| == 11 && data[0] == CMD_TAG_DETECTED
      && ReadTag(data) == tagCount
      && ReadTimestamp(data) == timestamp % 0x100_0000_0000_0000
      && (ReadTimestamp(data) == timestamp <==> timestamp < 0x100_0000_0000_0000)
  {
    var le := LittleEndian(timestamp, 8);
    var data := ScanRecord(timestamp, tagCount).payload;
    assert data[1..8] == le[..7];
    LittleEndianPrefix(timestamp, 8, 7);
    LittleEndianSplits(timestamp, 7);
    SizeRoundTrip(tagCount);
    assert Pow256(7) == 0x100_0000_0000_0000 by {
      assert Pow256(3) == 0x100_0000;
      assert Pow256(5) == 0x100_0000_0000;
    }
    ModuloConstant(timestamp, HighPart(timestamp, 7), ReadTimestamp(data));
  }

  // ----- from the framing threads to the client -----

  /** The protocol steps of a framing thread that sends a queue of packets: a
      write and a post for each. */
  function Sending(thread: nat, ps: seq<Packet>, padding: nat): seq<P.Action>
    requires Fit(ps, padding)
  {
    if ps == [] then []
    else [P.Write(thread, OutFrame(ps[0], padding).Encoded()), P.Post(thread)] + Sending(thread, ps[1..], padding)
  }

  lemma {:induction false} WriteAndPost(s: P.State, thread: nat, frame: seq<byte>, rest: seq<P.Action>, t: P.State)
    requires thread < |s.producers| && s.producers[thread] == P.Idle
    requires P.Leads(s.(dataOut := s.dataOut + frame, framed := s.framed + frame, writes := s.writes + 1,
                        semaphore := s.semaphore + 1), rest, t)
    ensures P.Leads(s, [P.Write(thread, frame), P.Post(thread)] + rest, t)
    ensures P.AllWritten([P.Write(thread, frame), P.Post(thread)] + rest) == frame + P.AllWritten(rest)
  {
    var a, b := P.Write(thread, frame), P.Post(thread);
    var run := [a, b] + rest;
    assert run[1..] == [b] + rest && ([b] + rest)[1..] == rest;
    var s1 := P.Perform(a, s);
    var s2 := P.Perform(b, s1);
    assert s2.producers == s.producers;
    assert P.Leads(s1, [b] + rest, t);
    Unit(P.AllWritten(rest));
  }

  /** Left alone, these steps have the effect that the sending loops of the
      server's worker are specified to have on the FIFO and the semaphore. */
  lemma {:induction false} SendingRefinesLoop(s: P.State, thread: nat, ps: seq<Packet>, padding: nat)
      returns (t: P.State)
    requires thread < |s.producers| && s.producers[thread] == P.Idle && Fit(ps, padding)
    ensures P.Leads(s, Sending(thread, ps, padding), t)
    ensures t.dataOut == s.dataOut + Sent(ps, padding) && t.semaphore == s.semaphore + |ps|
    ensures t.producers == s.producers && t.writer == s.writer && t.unsent == s.unsent && t.sent == s.sent
    ensures P.AllWritten(Sending(thread, ps, padding)) == Sent(ps, padding)
    decreases ps
  {
    if ps == [] {
      t := s;
      Unit(s.dataOut);
    } else {
      var frame := OutFrame(ps[0], padding).Encoded();
      var s' := s.(dataOut := s.dataOut + frame, framed := s.framed + frame, writes := s.writes + 1,
                   semaphore := s.semaphore + 1);
      t := SendingRefinesLoop(s', thread, ps[1..], padding);
      WriteAndPost(s, thread, frame, Sending(thread, ps[1..], padding), t);
      Assoc(s.dataOut, frame, Sent(ps[1..], padding));
    }
  }

  /** The writes of a run, in their order, are those of the frames. */
  ghost predicate WritesFrames(run: seq<P.Action>, fs: seq<OutFrame>)
    requires forall f <- fs :: f.Valid()
    decreases run
  {
    if run == [] then fs == []
    else if run[0].Write? then fs != [] && run[0].frame == fs[0].Encoded() && WritesFrames(run[1..], fs[1..])
    else WritesFrames(run[1..], fs)
  }

  lemma {:induction false} WrittenIsOutStream(run: seq<P.Action>, fs: seq<OutFrame>)
    requires (forall f <- fs :: f.Valid()) && WritesFrames(run, fs)
    ensures P.AllWritten(run) == OutStream(fs)
    decreases run
  {
    if run != [] {
      if run[0].Write? {
        WrittenIsOutStream(run[1..], fs[1..]);
      } else {
        WrittenIsOutStream(run[1..], fs);
        Unit(P.AllWritten(run[1..]));
      }
    }
  }

  /** Whatever the interleaving, whenever the writer is blocked and the
      producers are idle, the client that reads what has been sent gets exactly
      the commands framed, in the order in which they were written to the
      FIFO. */
  lemma {:induction false} SentIsReceived(threads: nat, run: seq<P.Action>, t: P.State, fs: seq<OutFrame>)
    requires P.Leads(P.Initial(threads), run, t) && P.Quiet(t)
    requires forall f <- fs :: f.Valid()
    requires (forall f <- fs :: Clean(f)) && WritesFrames(run, fs)
    ensures Session(t.sent, AllMeant(fs))
  {
    P.BlockedMeansSent(threads, run, t);
    WrittenIsOutStream(run, fs);
    RoundTrip([], fs);
    Unit(OutStream(fs));
  }

  /** The frames of one pass of the server's worker. */
  function PassFrames(rfid: seq<Packet>, motor: seq<Packet>): (fs: seq<OutFrame>)
    ensures |fs| == |rfid| + |motor|
  {
    FramesOf(rfid, RFID_PADDING) + FramesOf(motor, MOTOR_PADDING)
  }

  lemma {:induction false} PassIsUnderstood(rfid: seq<Packet>, motor: seq<Packet>)
    requires Fit(rfid, RFID_PADDING) && Fit(motor, MOTOR_PADDING)
    requires forall f <- PassFrames(rfid, motor) :: Clean(f)
    ensures forall f <- PassFrames(rfid, motor) :: f.Valid()
    ensures Session(Sent(rfid, RFID_PADDING) + Sent(motor, MOTOR_PADDING), AllMeant(PassFrames(rfid, motor)))
  {
    var fs, gs := FramesOf(rfid, RFID_PADDING), FramesOf(motor, MOTOR_PADDING);
    SentIsOutStream(rfid, RFID_PADDING);
    SentIsOutStream(motor, MOTOR_PADDING);
    OutStreamAppend(fs, gs);
    RoundTrip([], fs + gs);
    Unit(OutStream(fs + gs));
  }

  /** The packets of both modules, framed by one pass of the worker, sent and
      read by the client without silences: it gets the RFID packets and then the
      motor packets, each with its own type, size and data. */
  method PassReachesClient(net: Network) returns (got: seq<Command>)
    requires net.Valid() && net.dataOut.vec == []
    requires Fit(net.rfidOut.vec, RFID_PADDING) && Fit(net.motorOut.vec, MOTOR_PADDING)
    requires forall f <- PassFrames(net.rfidOut.vec, net.motorOut.vec) :: Clean(f)
    modifies net.rfidOut, net.motorOut, net.dataOut, net`unlockWriteThread
    ensures net.rfidOut.vec == [] && net.motorOut.vec == [] && net.dataOut.vec == []
    ensures got == AllMeant(PassFrames(old(net.rfidOut.vec), old(net.motorOut.vec)))
  {
    ghost var rfid, motor := net.rfidOut.vec, net.motorOut.vec;
    PassIsUnderstood(rfid, motor);
    var count := net.rfidOut.Size() + net.motorOut.Size();
    net.SendAll();
    var bytes := net.dataOut.ReadAll();
    Unit(Sent(rfid, RFID_PADDING) + Sent(motor, MOTOR_PADDING));
    got := Listen(bytes, count, AllMeant(PassFrames(rfid, motor)));
  }

  /** A new client that gets these bytes and no silence. */
  method Listen(bytes: seq<byte>, count: nat, ghost cs: seq<Command>) returns (got: seq<Command>)
    requires Session(bytes, cs) && count == |cs|
    ensures got == cs
  {
    var conn := new Connection(seq(|bytes|, i requires 0 <= i < |bytes| => Incoming(bytes[i])));
    got := ReceiveAll(conn, count, bytes, cs);
  }

  /** Reads `count` commands from a connection on which S arrives without a
      silence. */
  method ReceiveAll(conn: Connection, count: nat, ghost S: seq<byte>, ghost cs: seq<Command>)
      returns (got: seq<Command>)
    requires Heard(conn.socket, S) && |conn.socket| == |S| && Session(S, cs) && count == |cs|
    modifies conn
    ensures got == cs
  {
    got := [];
    ghost var bytes, left := S, cs;
    Unit(cs);
    while |got| < count
      invariant got + left == cs
      invariant Heard(conn.socket, bytes) && |conn.socket| == |bytes| && Session(bytes, left)
    {
      ghost var before := conn.socket;
      var r;
      ghost var bs, p;
      r, bs, p := conn.GetCmd();
      ghost var n := NextReply(before, bytes, left, r, bs, p);
      Assoc(got, [left[0]], left[1..]);
      assert left == [left[0]] + left[1..];
      got := got + [r.cmd];
      bytes, left := bytes[n..], left[1..];
    }
    Unit(got);
  }

  /** The call's reply is the next command of the session. */
  lemma {:induction false} NextReply(events: seq<Client.Event>, bytes: seq<byte>, left: seq<Command>, r: Reply,
                                     bs: seq<byte>, p: nat)
      returns (n: nat)
    requires Heard(events, bytes) && |events| == |bytes| && left != [] && Session(bytes, left)
    requires Heard(events, bs)
    requires r.Got? ==> Answers(bs, p, |bs|, r.cmd)
    requires r.TimedOut? ==> NoAnswer(bs) && (|bs| < |events| ==> events[|bs|] == Quiet)
    ensures r == Got(left[0]) && n == |bs| <= |bytes| && Session(bytes[n..], left[1..])
  {
    var q: nat, m: nat :| Answers(bytes, q, m, left[0]) && Session(bytes[m..], left[1..]);
    n := m;
    assert bytes == bs + bytes[|bs|..] by {
      assert forall i :: 0 <= i < |bs| ==> Incoming(bytes[i]) == Incoming(bs[i]);
    }
    match r {
      case Got(c) =>
        AnswersOfLonger(bs, bytes[|bs|..], p, |bs|, c);
        AnswersUnique(bytes, p, |bs|, c, q, m, left[0]);
      case TimedOut =>
        assert |bs| == |bytes|;
        Unit(bs);
    }
  }
}
