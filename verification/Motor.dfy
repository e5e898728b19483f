/** The motor module: its command worker and its speed monitor. */
module MotorModule {
  import opened Bytes
  import opened SafeFifo
  import opened Wire
  import opened StableSignal
  import opened RunningAverage
  import opened Regulators

  const CMD_CHANGE_SPEED: byte := 0
  const CMD_SIGNAL_STABLE_SPEED: byte := 2

  const MAX_ARGS: nat := 20

  /** The command structure the worker decodes every packet into. */
  datatype MotorCmd = MotorCmd(typ: byte, argc: nat, args: seq<byte>)

  /** The number of arguments stays within the structure. */
  predicate Decodable(p: Packet) {
    p.Valid() && p.data[1] as nat <= MAX_ARGS
  }

  /** What decoding makes of the structure: arguments beyond the packet's own
      keep the values of an earlier command. */
  function Decoded(cmd: MotorCmd, p: Packet): (c: MotorCmd)
    requires |cmd.args| == MAX_ARGS && Decodable(p)
    ensures |c.args| == MAX_ARGS
  {
    var argc := p.data[1] as nat;
    MotorCmd(p.data[0], argc, p.data[2..2 + argc] + cmd.args[argc..])
  }

  /** The commanded speed and direction. */
  datatype Order = Order(speed: nat, clockwise: bool)

  function Obeyed(o: Order, cmd: MotorCmd): Order
    requires |cmd.args| == MAX_ARGS
  {
    if cmd.typ == CMD_CHANGE_SPEED then Order(BigEndian16(cmd.args[0], cmd.args[1]), cmd.args[2] != 0) else o
  }

  /** The structure and the order after the packets of a queue. */
  function Worked(cmd: MotorCmd, o: Order, ps: seq<Packet>): (r: (MotorCmd, Order))
    requires |cmd.args| == MAX_ARGS && forall p <- ps :: Decodable(p)
    ensures |r.0.args| == MAX_ARGS
    decreases ps
  {
    if ps == [] then (cmd, o)
    else
      var cmd' := Decoded(cmd, ps[0]);
      Worked(cmd', Obeyed(o, cmd'), ps[1..])
  }

  /** A report of the reached speed. */
  function StableReport(speedMeas: nat): Message
    requires speedMeas < 0x1_0000
  {
    Message(INFO_MOTOR, [CMD_SIGNAL_STABLE_SPEED, High(speedMeas), Low(speedMeas)])
  }

  /** What the stable-speed counter sees of a run of the filter. */
  function Samples(f: Filter, rpms: seq<nat>, vref: real, whole: bool): (es: seq<Event>)
    requires Ring(f.speeds)
    ensures |es| == |rpms| && NoChange(es)
    decreases rpms
  {
    if rpms == [] then [] else
    var g := Step(f, rpms[0]);
    [Sample(Within(g.average, vref, whole))] + Samples(g, rpms[1..], vref, whole)
  }

  lemma {:induction false} SamplesAppend(f: Filter, a: seq<nat>, b: seq<nat>, vref: real, whole: bool)
    requires Ring(f.speeds)
    ensures Samples(f, a + b, vref, whole) == Samples(f, a, vref, whole) + Samples(Run(f, a), b, vref, whole)
    decreases a
  {
    if a == [] {
      Unit(b);
      Unit(Samples(f, b, vref, whole));
    } else {
      var g := Step(f, a[0]);
      assert (a + b)[0] == a[0] && (a + b)[1..] == a[1..] + b;
      SamplesAppend(g, a[1..], b, vref, whole);
      Assoc([Sample(Within(g.average, vref, whole))],
            Samples(g, a[1..], vref, whole), Samples(Run(f, a), b, vref, whole));
    }
  }

  /** What one pass of the monitor adds. */
  lemma {:induction false} OneMoreSample(f: Filter, h: seq<Event>, g: Regulator, done: seq<nat>, rpm: nat,
                                         vref: real, whole: bool)
    requires Ring(f.speeds)
    ensures var f', history := Step(Run(f, done), rpm), h + Samples(f, done, vref, whole);
      var history' := history + [Sample(Within(f'.average, vref, whole))];
      && Run(f, done + [rpm]) == f'
      && AllRegulated(g, vref, done + [rpm]) == Regulated(AllRegulated(g, vref, done), vref, rpm)
      && h + Samples(f, done + [rpm], vref, whole) == history'
      && SignalCount(history') == SignalCount(history) + if Signals(history') then 1 else 0
  {
    var before := Run(f, done);
    var f' := Step(before, rpm);
    var e := Sample(Within(f'.average, vref, whole));
    RunAppend(f, done, [rpm]);
    SamplesAppend(f, done, [rpm], vref, whole);
    OneSample(before, rpm, vref, whole);
    assert (done + [rpm])[..|done|] == done;
    Assoc(h, Samples(f, done, vref, whole), [e]);
    OneMoreEvent(h + Samples(f, done, vref, whole), e);
  }

  lemma {:induction false} OneSample(f: Filter, rpm: nat, vref: real, whole: bool)
    requires Ring(f.speeds)
    ensures var g := Step(f, rpm);
      Run(f, [rpm]) == g && Samples(f, [rpm], vref, whole) == [Sample(Within(g.average, vref, whole))]
  {
    var g := Step(f, rpm);
    assert [rpm][1..] == [];
    assert Run(g, []) == g && Samples(g, [], vref, whole) == [];
  }

  class Motor {
    const fifoIn: SafeFIFO<Packet>
    const fifoOut: SafeFIFO<Packet>
    // the worker's command structure
    var cmdType: byte
    var argc: nat
    const args: array<byte>
    // commanded
    var speedCmd: nat
    var vref: real
    var pin4: bool
    var pin5: bool
    var regulator: Regulator
    // monitored
    var stableCount: nat
    const speeds: array<nat>
    var average: real
    var i: nat
    var speedMeas: nat
    ghost var history: seq<Event>

    ghost predicate Valid()
      reads this, args, speeds
    {
      && Monitored() && args.Length == MAX_ARGS
      && stableCount == StableCount(history)
      && vref == speedCmd as real && pin4 == !pin5 && speedCmd < 0x1_0000
    }

    /** The part that only the monitor changes. */
    ghost predicate Monitored()
      reads this`average, this`i, this`speedMeas, speeds
    {
      && speeds.Length == MEAN_SAMPLE_SIZE && Ring(speeds[..]) && average >= 0.0
      && speedMeas < 0x1_0000 && i < 0x1_0000_0000
    }

    ghost function Cmd(): MotorCmd
      reads this, args
    {
      MotorCmd(cmdType, argc, args[..])
    }

    ghost function Current(): Order
      reads this
    {
      Order(speedCmd, pin5)
    }

    ghost function State(): Filter
      reads this, speeds
    {
      Filter(average, speeds[..], i)
    }

    constructor (fifoIn: SafeFIFO<Packet>, fifoOut: SafeFIFO<Packet>)
      requires fifoIn != fifoOut
      ensures Valid() && this.fifoIn == fifoIn && this.fifoOut == fifoOut && fresh(args) && fresh(speeds)
      ensures history == [] && Current() == Order(0, true) && average == 0.0 && regulator == AT_REST
    {
      this.fifoIn, this.fifoOut := fifoIn, fifoOut;
      cmdType, argc := 0, 0;
      args := new byte[MAX_ARGS];
      speedCmd, vref, pin4, pin5, regulator := 0, 0.0, false, true, AT_REST;
      stableCount, average, i, speedMeas := 5, 0.0, 0, 0;
      speeds := new nat[MEAN_SAMPLE_SIZE](k => 0);
      history := [];
    }

    method Decapsulate(command: Packet)
      requires Valid() && Decodable(command)
      modifies this`cmdType, this`argc, args
      ensures Valid() && Cmd() == Decoded(old(Cmd()), command)
      ensures cmdType == command.data[0] && argc == command.data[1] as nat
      ensures forall k :: 0 <= k < argc ==> args[k] == command.data[2 + k]
      ensures forall k :: argc <= k < args.Length ==> args[k] == old(args[k])
    {
      cmdType := command.data[0];
      argc := command.data[1] as nat;
      var k := 0;
      while k < argc
        invariant cmdType == command.data[0] && argc == command.data[1] as nat
        invariant 0 <= k <= argc
        invariant forall j :: 0 <= j < k ==> args[j] == command.data[j + 2]
        invariant forall j :: k <= j < args.Length ==> args[j] == old(args[j])
      {
        args[k] := command.data[k + 2];
        k := k + 1;
      }
      assert args[..] == command.data[2..2 + argc] + old(args[..])[argc..];
    }

    /** Executes the command structure. A speed change restarts the count of
        samples in tolerance; a stop also puts the regulator at rest. */
    method Execute()
      requires Valid()
      modifies this`speedCmd, this`vref, this`pin4, this`pin5, this`regulator, this`stableCount, this`history
      ensures Valid() && Current() == Obeyed(old(Current()), Cmd())
      ensures history == if cmdType == CMD_CHANGE_SPEED then old(history) + [Change] else old(history)
      ensures regulator == if cmdType == CMD_CHANGE_SPEED && Current().speed == 0 then AT_REST else old(regulator)
      ensures cmdType == 0 ==>
        speedCmd == 256 * args[0] as nat + args[1] as nat && (pin5 <==> args[2] != 0) && (pin4 <==> args[2] == 0)
      ensures cmdType != 0 ==> speedCmd == old(speedCmd) && pin4 == old(pin4) && pin5 == old(pin5)
    {
      if cmdType == CMD_CHANGE_SPEED {
        ChangeSpeed();
      }
    }

    method ChangeSpeed()
      requires Valid()
      modifies this`speedCmd, this`vref, this`pin4, this`pin5, this`regulator, this`stableCount, this`history
      ensures Valid() && history == old(history) + [Change]
      ensures Current() == Order(BigEndian16(args[0], args[1]), args[2] != 0)
      ensures regulator == if speedCmd == 0 then AT_REST else old(regulator)
    {
      var speed, clockwise := BigEndian16(args[0], args[1]), args[2] != 0;
      SetSpeed(speed);
      ghost var g := regulator;
      Restart();
      ghost var h, c := history, stableCount;
      assert c == StableCount(h);
      Direction(clockwise);
      assert Monitored() && history == h && stableCount == c && regulator == g;
      assert vref == speed as real && speedCmd == speed;
      assert Valid();
      assert Current() == Order(speed, clockwise);
    }

    /** Sets speed and target; a stop also puts the regulator at rest. */
    method SetSpeed(speed: nat)
      modifies this`speedCmd, this`vref, this`regulator
      ensures speedCmd == speed && vref == speed as real
      ensures regulator == if speed == 0 then AT_REST else old(regulator)
    {
      speedCmd := speed;
      vref := speedCmd as real;
      if vref == 0.0 {
        Stop();
      }
    }

    /** Restarts the count of samples in tolerance. */
    method Restart()
      modifies this`stableCount, this`history
      ensures history == old(history) + [Change] && stableCount == StableCount(history)
    {
      OneMoreEvent(history, Change);
      stableCount := 0;
      history := history + [Change];
    }

    method Stop()
      modifies this`vref, this`regulator
      ensures vref == 0.0 && regulator == AT_REST
    {
      vref := 0.0;
      regulator := Regulator(0.0, 0.0, PWM_MIN, PWM_MIN);
    }

    method Direction(clockwise: bool)
      modifies this`pin4, this`pin5
      ensures pin5 == clockwise && pin4 == !pin5
    {
      if clockwise {
        pin4 := false;
        pin5 := true;
      } else {
        pin4 := true;
        pin5 := false;
      }
    }

    /** The worker's loop over its queue. */
    method Work()
      requires Valid() && forall p <- fifoIn.vec :: Decodable(p)
      modifies fifoIn, this`cmdType, this`argc, args
      modifies this`speedCmd, this`vref, this`pin4, this`pin5, this`regulator, this`stableCount, this`history
      ensures Valid() && fifoIn.vec == []
      ensures (Cmd(), Current()) == Worked(old(Cmd()), old(Current()), old(fifoIn.vec))
    {
      while !fifoIn.Empty()
        invariant Valid() && forall p <- fifoIn.vec :: Decodable(p)
        invariant Worked(Cmd(), Current(), fifoIn.vec) == Worked(old(Cmd()), old(Current()), old(fifoIn.vec))
        decreases |fifoIn.vec|
      {
        ghost var before := fifoIn.vec;
        var cmd := fifoIn.ReadOne();
        assert cmd == before[0] && fifoIn.vec == before[1..];
        Obey(cmd);
      }
    }

    method Obey(cmd: Packet)
      requires Valid() && Decodable(cmd)
      modifies this`cmdType, this`argc, args
      modifies this`speedCmd, this`vref, this`pin4, this`pin5, this`regulator, this`stableCount, this`history
      ensures Valid() && Cmd() == Decoded(old(Cmd()), cmd) && Current() == Obeyed(old(Current()), Cmd())
    {
      Decapsulate(cmd);
      Execute();
    }

    method SignalStable()
      requires Valid()
      modifies fifoOut
      ensures |fifoOut.vec| == |old(fifoOut.vec)| + 1 && old(fifoOut.vec) <= fifoOut.vec
      ensures var p := fifoOut.vec[|old(fifoOut.vec)|];
        && p.Valid() && p.Content() == StableReport(speedMeas)
        && p.typ == 3 && p.size == 3 && p.data[0] == 2 && 256 * p.data[1] as nat + p.data[2] as nat == speedMeas
    {
      SizeRoundTrip(speedMeas);
      var data := new byte[MAX_DATA_LEN];
      data[0] := CMD_SIGNAL_STABLE_SPEED;
      data[1] := High(speedMeas);
      data[2] := Low(speedMeas);
      assert data[..][..3] == [CMD_SIGNAL_STABLE_SPEED, High(speedMeas), Low(speedMeas)];
      fifoOut.WriteOne(Packet(INFO_MOTOR, 3, data[..]));
    }

    /** One pass of the monitor: `rpm` is the speed since the last one, `whole`
        says which `abs` the tolerance test uses. The average moves on by one
        step of the filter, and the speed is reported exactly when this sample
        is the fifth in tolerance since the last change. */
    method TakeSample(rpm: nat, whole: bool)
      requires Valid()
      modifies this`average, this`i, this`speedMeas, this`regulator, this`stableCount, this`history, speeds, fifoOut
      ensures Valid() && State() == Step(old(State()), rpm)
      ensures history == old(history) + [Sample(Within(average, vref, whole))]
      ensures speedMeas == average.Floor % 0x1_0000 && regulator == Regulated(old(regulator), vref, rpm)
      ensures old(fifoOut.vec) <= fifoOut.vec
      ensures |fifoOut.vec| == |old(fifoOut.vec)| + if Signals(history) then 1 else 0
      ensures Signals(history) ==>
        var p := fifoOut.vec[|old(fifoOut.vec)|]; p.Valid() && p.Content() == StableReport(speedMeas)
    {
      UpdateAverage(rpm);
      CountSample(Within(average, vref, whole));
      Regulate(rpm);
    }

    /** Stores the sample and moves the average on. */
    method UpdateAverage(rpm: nat)
      requires Valid()
      modifies this`average, this`i, this`speedMeas, speeds
      ensures Valid() && State() == Step(old(State()), rpm)
      ensures speedMeas == average.Floor % 0x1_0000
    {
      var slot := i % MEAN_SAMPLE_SIZE;
      i := NextIndex(i);
      if slot != 0 {
        speeds[slot - 1] := rpm;
      }
      assert speeds[..] == Stored(old(speeds[..]), old(i), rpm);
      AddUp();
      average := average / 10.0;
      speedMeas := average.Floor % 0x1_0000;
    }

    /** Counts a sample in tolerance, and reports the fifth. */
    method CountSample(within: bool)
      requires Valid()
      modifies this`stableCount, this`history, fifoOut
      ensures Valid() && history == old(history) + [Sample(within)]
      ensures old(fifoOut.vec) <= fifoOut.vec
      ensures |fifoOut.vec| == |old(fifoOut.vec)| + if Signals(history) then 1 else 0
      ensures Signals(history) ==>
        var p := fifoOut.vec[|old(fifoOut.vec)|]; p.Valid() && p.Content() == StableReport(speedMeas)
    {
      OneMoreEvent(history, Sample(within));
      history := history + [Sample(within)];
      if within && stableCount < 5 {
        stableCount := stableCount + 1;
        if stableCount >= 5 {
          SignalStable();
        }
      }
    }

    /** One step of the regulator. */
    method Regulate(rpm: nat)
      modifies this`regulator
      ensures regulator == Regulated(old(regulator), vref, rpm)
    {
      var error := vref - rpm as real;
      var proportional := KP * error;
      var command := proportional + regulator.integral;
      regulator := Regulator(error, proportional, regulator.integral + KI * DT * error, command);
    }

    /** Passes of the monitor with no command between them: one report is queued
        for every signal. */
    method Monitor(rpms: seq<nat>, whole: bool)
      requires Valid()
      modifies this`average, this`i, this`speedMeas, this`regulator, this`stableCount, this`history, speeds, fifoOut
      ensures Valid() && State() == Run(old(State()), rpms)
      ensures history == old(history) + Samples(old(State()), rpms, vref, whole)
      ensures regulator == AllRegulated(old(regulator), vref, rpms)
      ensures |fifoOut.vec| + SignalCount(old(history)) == |old(fifoOut.vec)| + SignalCount(history)
      ensures old(fifoOut.vec) <= fifoOut.vec
    {
      ghost var f, h, g, target := State(), history, regulator, vref;
      ghost var done: seq<nat> := [];
      var n := 0;
      Unit(h);
      while n < |rpms|
        invariant n <= |rpms| && done == rpms[..n] && Valid() && vref == target
        invariant State() == Run(f, done) && regulator == AllRegulated(g, target, done)
        invariant history == h + Samples(f, done, target, whole)
        invariant |fifoOut.vec| + SignalCount(h) == |old(fifoOut.vec)| + SignalCount(history)
        invariant old(fifoOut.vec) <= fifoOut.vec
      {
        TakeStep(rpms, n);
        OneMoreSample(f, h, g, done, rpms[n], target, whole);
        TakeSample(rpms[n], whole);
        done := done + [rpms[n]];
        n := n + 1;
      }
      assert rpms[..n] == rpms;
    }

    /** Adds the whole ring to the average of the last sample. */
    method AddUp()
      requires average >= 0.0
      modifies this`average
      ensures average == old(average) + Sum(speeds[..]) as real
      ensures average >= 0.0
    {
      var k := 0;
      while k < speeds.Length
        invariant 0 <= k <= speeds.Length
        invariant average == old(average) + Sum(speeds[..k]) as real
      {
        assert speeds[..k + 1][..k] == speeds[..k];
        average := average + speeds[k] as real;
        k := k + 1;
      }
      assert speeds[..k] == speeds[..];
    }
  }

  // ----- the last command wins -----

  /** A command of the client: full arguments for a speed change. */
  predicate SpeedCommand(m: Short) {
    |m.payload| == 5 && m.payload[0] == CMD_CHANGE_SPEED && m.payload[1] == 3
  }

  function Ordered(m: Short): Order
    requires SpeedCommand(m)
  {
    Order(BigEndian16(m.payload[2], m.payload[3]), m.payload[4] != 0)
  }

  lemma {:induction false} CommandObeyed(cmd: MotorCmd, o: Order, p: Packet)
    requires |cmd.args| == MAX_ARGS && p.Valid() && SpeedCommand(p.Content())
    ensures Decodable(p) && Obeyed(o, Decoded(cmd, p)) == Ordered(p.Content())
  {
    var content := p.Content().payload;
    assert forall k :: 0 <= k < 5 ==> p.data[k] == content[k];
    var args := Decoded(cmd, p).args;
    assert args[0] == p.data[2] && args[1] == p.data[3] && args[2] == p.data[4];
  }

  /** However many speed commands wait, and whatever the structure held, the
      order after them is the last one's. */
  lemma {:induction false} LastCommandWins(cmd: MotorCmd, o: Order, ps: seq<Packet>)
    requires |cmd.args| == MAX_ARGS && ps != []
    requires forall p <- ps :: p.Valid() && SpeedCommand(p.Content())
    ensures forall p <- ps :: Decodable(p)
    ensures Worked(cmd, o, ps).1 == Ordered(ps[|ps| - 1].Content())
    decreases ps
  {
    forall p | p in ps
      ensures Decodable(p)
    {
      CommandObeyed(cmd, o, p);
    }
    var cmd' := Decoded(cmd, ps[0]);
    assert ps[0] in ps;
    CommandObeyed(cmd, o, ps[0]);
    if |ps| > 1 {
      assert forall p <- ps[1..] :: p in ps;
      LastCommandWins(cmd', Obeyed(o, cmd'), ps[1..]);
    }
  }

  // ----- a speed that is reached is reported -----

  /** Equal samples on a settled average are all in tolerance. */
  lemma {:induction false} SettledSamples(f: Filter, rpms: seq<nat>, r: nat, whole: bool)
    requires Constant(f.speeds, r) && Within(f.average, r as real, whole) && AllEqual(rpms, r)
    ensures AllInTolerance(Samples(f, rpms, r as real, whole))
    decreases rpms
  {
    if rpms != [] {
      StepStaysWithin(f, r, whole);
      SettledSamples(Step(f, r), rpms[1..], r, whole);
    }
  }

  lemma {:induction false} InToleranceAppend(a: seq<Event>, b: seq<Event>)
    ensures InTolerance(a + b) == InTolerance(a) + InTolerance(b)
  {
    if b == [] {
      Unit(a);
    } else {
      assert (a + b)[..|a + b| - 1] == a + b[..|b| - 1];
      InToleranceAppend(a, b[..|b| - 1]);
    }
  }

  predicate AllInTolerance(es: seq<Event>) {
    forall i :: 0 <= i < |es| ==> es[i] == Sample(true)
  }

  lemma {:induction false} CountAll(es: seq<Event>)
    requires AllInTolerance(es)
    ensures InTolerance(es) == |es|
  {
    if es != [] {
      CountAll(es[..|es| - 1]);
    }
  }

  /** The first samples fill the window, k more bring the average into
      tolerance, and the rest are in tolerance. */
  lemma {:induction false} EnoughSamplesInTolerance(f: Filter, rpms: seq<nat>, r: nat, max: nat, k: nat, whole: bool)
    requires Bounded(f, max) && r <= max && AllEqual(rpms, r) && f.i < 0x1_0000_0000
    requires Settles(k, r, max, whole) && |rpms| >= FillTime(f.i) + k
    ensures InTolerance(Samples(f, rpms, r as real, whole)) >= |rpms| - FillTime(f.i) - k
  {
    var n := FillTime(f.i);
    var a, b, c := rpms[..n], rpms[n..n + k], rpms[n + k..];
    assert rpms == a + (b + c);
    WindowFills(f, a, r);
    AverageStaysBounded(f, a, max);
    var g := Run(f, a);
    SettlesWithinTolerance(g, b, r, max, whole);
    var h := Run(g, b);
    SettledSamples(h, c, r, whole);
    CountAll(Samples(h, c, r as real, whole));
    SamplesAppend(f, a, b + c, r as real, whole);
    SamplesAppend(g, b, c, r as real, whole);
    InToleranceAppend(Samples(f, a, r as real, whole), Samples(g, b + c, r as real, whole));
    InToleranceAppend(Samples(g, b, r as real, whole), Samples(h, c, r as real, whole));
  }

  /** After any history, a change to a speed that the motor then runs at is
      signalled exactly once: as many samples as fill the window, as settle the
      average, and five more are enough. SomeCountSettles says when some number
      settles it: always, except for speed zero where fractions count. */
  lemma {:induction false} ReachedSpeedIsReportedOnce(pre: seq<Event>, f: Filter, rpms: seq<nat>, r: nat, max: nat,
                                                      k: nat, whole: bool)
    requires r <= max && Bounded(f, max) && AllEqual(rpms, r) && f.i < 0x1_0000_0000
    requires Settles(k, r, max, whole) && |rpms| >= FillTime(f.i) + k + 5
    ensures SignalCount(pre + [Change] + Samples(f, rpms, r as real, whole)) == SignalCount(pre) + 1
  {
    EnoughSamplesInTolerance(f, rpms, r, max, k, whole);
    OncePerCommand(pre, Samples(f, rpms, r as real, whole));
  }

  lemma {:induction false} SettledAt(f: Filter, rpms: seq<nat>, s: nat, r: nat, whole: bool)
    requires Constant(f.speeds, s) && f.average == s as real && AllEqual(rpms, s)
    ensures InTolerance(Samples(f, rpms, r as real, whole)) ==
            if Within(s as real, r as real, whole) then |rpms| else 0
    decreases rpms
  {
    if rpms != [] {
      SettledStays(f, s);
      var e := Sample(Within(s as real, r as real, whole));
      SettledAt(Step(f, s), rpms[1..], s, r, whole);
      InToleranceAppend([e], Samples(Step(f, s), rpms[1..], r as real, whole));
      assert [e][..0] == [];
      assert InTolerance([e]) == InTolerance([e][..0]) + if e == Sample(true) then 1 else 0;
    }
  }

  /** A motor that runs steadily at some speed, with the average settled, is
      reported for a new target, once, if and only if a hundred times the
      distance is at most three times the target. */
  lemma {:induction false} SteadySpeedIsReportedIff(pre: seq<Event>, f: Filter, rpms: seq<nat>, s: nat, r: nat,
                                                    whole: bool)
    requires Constant(f.speeds, s) && f.average == s as real && AllEqual(rpms, s) && |rpms| >= 5
    ensures SignalCount(pre + [Change] + Samples(f, rpms, r as real, whole)) ==
            SignalCount(pre) + if 100 * (if s < r then r - s else s - r) <= 3 * r then 1 else 0
  {
    WholeWithinIff(s, r, whole);
    SettledAt(f, rpms, s, r, whole);
    OncePerCommand(pre, Samples(f, rpms, r as real, whole));
  }

  lemma {:induction false} NearSamples(f: Filter, rpms: seq<nat>, s: nat, r: nat, m: real, whole: bool)
    requires Constant(f.speeds, s) && Absolute(Error(f, s)) <= m && AllEqual(rpms, s)
    requires 100.0 * (Absolute(s as real - r as real) + m) <= 3.0 * r as real
    ensures AllInTolerance(Samples(f, rpms, r as real, whole))
    decreases rpms
  {
    if rpms != [] {
      NearStays(f, s, r, m, whole);
      NearSamples(Step(f, s), rpms[1..], s, r, m, whole);
    }
  }

  /** From any start, a motor that keeps running at a speed strictly nearer than
      three percent to the target is reported exactly once, when the samples
      fill the window, shrink the error to the margin left, and are five more. */
  lemma {:induction false} NearSpeedIsReportedOnce(pre: seq<Event>, f: Filter, rpms: seq<nat>, s: nat, r: nat,
                                                   max: nat, k: nat, m: real, whole: bool)
    requires s <= max && Bounded(f, max) && AllEqual(rpms, s) && f.i < 0x1_0000_0000
    requires 100.0 * (Absolute(s as real - r as real) + m) <= 3.0 * r as real && Tenth(max as real, k) <= m
    requires |rpms| >= FillTime(f.i) + k + 5
    ensures SignalCount(pre + [Change] + Samples(f, rpms, r as real, whole)) == SignalCount(pre) + 1
  {
    var n := FillTime(f.i);
    var a, b, c := rpms[..n], rpms[n..n + k], rpms[n + k..];
    assert rpms == a + (b + c);
    WindowFills(f, a, s);
    AverageStaysBounded(f, a, max);
    var g := Run(f, a);
    ErrorShrinksTenfold(g, b, s);
    TenthKeepsOrder(Error(g, s), max as real, k);
    var h := Run(g, b);
    NearSamples(h, c, s, r, m, whole);
    CountAll(Samples(h, c, r as real, whole));
    SamplesAppend(f, a, b + c, r as real, whole);
    SamplesAppend(g, b, c, r as real, whole);
    InToleranceAppend(Samples(f, a, r as real, whole), Samples(g, b + c, r as real, whole));
    InToleranceAppend(Samples(g, b, r as real, whole), Samples(h, c, r as real, whole));
    OncePerCommand(pre, Samples(f, rpms, r as real, whole));
  }

  lemma {:induction false} IndexStays(f: Filter, rpms: seq<nat>)
    requires Ring(f.speeds) && f.i < 0x1_0000_0000
    ensures Run(f, rpms).i < 0x1_0000_0000
    decreases rpms
  {
    if rpms != [] {
      IndexStays(Step(f, rpms[0]), rpms[1..]);
    }
  }

  /** The source restarts the count one statement before it sets the target, so
      that samples in between count against the old target. All the same there
      is exactly one signal; it comes too early, before the new target is set,
      if and only if five of those samples are in tolerance of the old one. */
  lemma {:induction false} RestartBeforeTarget(pre: seq<Event>, f: Filter, between: seq<nat>, target: real,
                                               rpms: seq<nat>, r: nat, max: nat, k: nat, whole: bool)
    requires r <= max && Bounded(f, max) && AtMost(between, max) && AllEqual(rpms, r) && f.i < 0x1_0000_0000
    requires Settles(k, r, max, whole) && |rpms| >= FillTime(Run(f, between).i) + k + 5
    ensures var early, later := Samples(f, between, target, whole), Samples(Run(f, between), rpms, r as real, whole);
      && SignalCount(pre + [Change] + (early + later)) == SignalCount(pre) + 1
      && (SignalCount(pre + [Change] + early) == SignalCount(pre) + 1 <==> InTolerance(early) >= 5)
  {
    var g := Run(f, between);
    var early, later := Samples(f, between, target, whole), Samples(g, rpms, r as real, whole);
    AverageStaysBounded(f, between, max);
    IndexStays(f, between);
    EnoughSamplesInTolerance(g, rpms, r, max, k, whole);
    InToleranceAppend(early, later);
    OncePerCommand(pre, early);
    OncePerCommand(pre, early + later);
  }

  /** A stop with the `abs` of integers: once the average is below one it is in
      tolerance, so that the stop is reported, exactly once. */
  lemma {:induction false} StopIsReportedOnce(pre: seq<Event>, f: Filter, rpms: seq<nat>, max: nat, k: nat)
    requires Bounded(f, max) && AllEqual(rpms, 0) && f.i < 0x1_0000_0000
    requires Tenth(max as real, k) < 1.0 && |rpms| >= FillTime(f.i) + k + 5
    ensures SignalCount(pre + [Change] + Samples(f, rpms, 0.0, true)) == SignalCount(pre) + 1
  {
    ReachedSpeedIsReportedOnce(pre, f, rpms, 0, max, k, true);
  }

  lemma {:induction false} NeverInTolerance(f: Filter, rpms: seq<nat>)
    requires Ring(f.speeds) && f.average > 0.0
    ensures InTolerance(Samples(f, rpms, 0.0, false)) == 0
    decreases rpms
  {
    if rpms != [] {
      StepStaysPositive(f, rpms[0]);
      NeverInTolerance(Step(f, rpms[0]), rpms[1..]);
      InToleranceAppend([Sample(false)], Samples(Step(f, rpms[0]), rpms[1..], 0.0, false));
    }
  }

  /** A stop with the `abs` of reals, from an average that is not zero: whatever
      the motor does then, the stop is never reported. */
  lemma {:induction false} StopIsNeverReported(pre: seq<Event>, f: Filter, rpms: seq<nat>)
    requires Ring(f.speeds) && f.average > 0.0
    ensures SignalCount(pre + [Change] + Samples(f, rpms, 0.0, false)) == SignalCount(pre)
  {
    NeverInTolerance(f, rpms);
    OncePerCommand(pre, Samples(f, rpms, 0.0, false));
  }

  /** The exact condition: when the motor stands still after a stop, that is
      reported, once, if and only if the average and what the ring holds after
      the first sample are zero already. */
  lemma {:induction false} StopIsReportedIff(pre: seq<Event>, f: Filter, rpms: seq<nat>)
    requires Ring(f.speeds) && f.average >= 0.0 && AllEqual(rpms, 0) && |rpms| >= 5
    ensures SignalCount(pre + [Change] + Samples(f, rpms, 0.0, false)) == SignalCount(pre) +
            if f.average == 0.0 && Sum(Stored(f.speeds, f.i, 0)) == 0 then 1 else 0
  {
    var g := Step(f, 0);
    var later := Samples(g, rpms[1..], 0.0, false);
    if f.average == 0.0 && Sum(Stored(f.speeds, f.i, 0)) == 0 {
      ZeroSum(g.speeds);
      SettledSamples(g, rpms[1..], 0, false);
      CountAll(later);
      InToleranceAppend([Sample(true)], later);
      CountAll([Sample(true)]);
    } else {
      NeverInTolerance(g, rpms[1..]);
      InToleranceAppend([Sample(false)], later);
    }
    OncePerCommand(pre, Samples(f, rpms, 0.0, false));
  }
}
