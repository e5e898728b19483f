/** The scan status of the RFID module, its worker thread and the scan threads
    it spawns and detaches, in atomic steps. */
module ScanStatus {
  datatype Status = Disconnected | Idle | Scanning | StopScan | Error

  /** Where a scan thread is. It uses the serial line while it switches the
      reader on or off and while it waits for tags. */
  datatype Scan =
    | SwitchingOn
    | Testing       // at the condition of its loop
    | AwaitingTags
    | SwitchingOff
    | Leaving       // about to set the status back to idle
    | Done

  /** The worker executes commands and idle reads one after the other. */
  datatype Worker = Free | IdleReading

  datatype State = State(status: Status, scans: seq<Scan>, worker: Worker)

  datatype Action =
    | On
    | Off
    | BeginRead
    | EndRead
    | Advance(thread: nat)

  const CONNECTED: State := State(Idle, [], Free)

  predicate Enabled(a: Action, s: State) {
    match a
    case On => s.worker == Free
    case Off => s.worker == Free
    case BeginRead => s.worker == Free && s.status == Idle
    case EndRead => s.worker == IdleReading
    case Advance(i) => i < |s.scans| && s.scans[i] != Done
  }

  function NextOf(scan: Scan, status: Status): Scan {
    match scan
    case SwitchingOn => Testing
    case Testing => if status == Scanning then AwaitingTags else SwitchingOff
    case AwaitingTags => Testing
    case SwitchingOff => Leaving
    case Leaving => Done
    case Done => Done
  }

  function Perform(a: Action, s: State): State
    requires Enabled(a, s)
  {
    match a
    case On => s.(status := Scanning, scans := s.scans + [SwitchingOn])
    case Off => s.(status := StopScan)
    case BeginRead => s.(worker := IdleReading)
    case EndRead => s.(worker := Free)
    case Advance(i) =>
      s.(scans := s.scans[i := NextOf(s.scans[i], s.status)],
         status := if s.scans[i] == Leaving then Idle else s.status)
  }

  ghost predicate Possible(s: State, run: seq<Action>)
    decreases run
  {
    run != [] ==> Enabled(run[0], s) && Possible(Perform(run[0], s), run[1..])
  }

  function After(s: State, run: seq<Action>): State
    requires Possible(s, run)
    decreases run
  {
    if run == [] then s else After(Perform(run[0], s), run[1..])
  }

  // ----- scanning means somebody scans -----

  predicate InLoop(scan: Scan) {
    scan == SwitchingOn || scan == Testing || scan == AwaitingTags
  }

  /** The youngest scan thread is in its loop whenever the status says so. */
  predicate SomebodyScans(s: State) {
    s.status == Scanning ==> s.scans != [] && InLoop(s.scans[|s.scans| - 1])
  }

  /** In every run, whatever the commands. */
  lemma {:induction false} ScanningIsTrue(s: State, run: seq<Action>)
    requires SomebodyScans(s) && Possible(s, run)
    ensures SomebodyScans(After(s, run))
    decreases run
  {
    if run != [] {
      ScanningIsTrue(Perform(run[0], s), run[1..]);
    }
  }

  // ----- one scan at a time -----

  predicate NoneAlive(s: State) {
    forall scan <- s.scans :: scan == Done
  }

  predicate AtMostOneAlive(s: State) {
    forall i, j :: 0 <= i < |s.scans| && 0 <= j < |s.scans| && s.scans[i] != Done && s.scans[j] != Done ==> i == j
  }

  predicate OnSerialLine(scan: Scan) {
    scan == SwitchingOn || scan == AwaitingTags || scan == SwitchingOff
  }

  /** The worker and the scan threads do not read the serial line at once. */
  predicate NoOverlap(s: State) {
    s.worker == IdleReading ==> forall scan <- s.scans :: !OnSerialLine(scan)
  }

  ghost predicate Always(s: State, run: seq<Action>, good: State -> bool)
    requires Possible(s, run)
    decreases run
  {
    good(s) && (run != [] ==> Always(Perform(run[0], s), run[1..], good))
  }

  /** ON is executed only when the status is idle. */
  ghost predicate OnOnlyWhenIdle(s: State, run: seq<Action>)
    requires Possible(s, run)
    decreases run
  {
    run != [] ==> (run[0].On? ==> s.status == Idle) && OnOnlyWhenIdle(Perform(run[0], s), run[1..])
  }

  predicate Orderly(s: State) {
    && AtMostOneAlive(s)
    && (s.status == Idle ==> NoneAlive(s))
    && (s.worker == IdleReading ==> s.status == Idle)
  }

  lemma {:induction false} OrderlyStep(a: Action, s: State)
    requires Orderly(s) && Enabled(a, s) && (a.On? ==> NoneAlive(s))
    ensures Orderly(Perform(a, s))
  {
    match a
    case Advance(i) =>
      assert s.scans[i] in s.scans;
      var t := Perform(a, s);
      if s.scans[i] == Leaving {
        forall j | 0 <= j < |t.scans|
          ensures t.scans[j] == Done
        {
          assert j != i ==> s.scans[j] == Done;
        }
      }
    case On =>
      assert forall j :: 0 <= j < |s.scans| ==> s.scans[j] in s.scans;
    case _ =>
  }

  /** Every ON is executed when no scan thread is alive. */
  ghost predicate OnOnlyWhenNobody(s: State, run: seq<Action>)
    requires Possible(s, run)
    decreases run
  {
    run != [] ==> (run[0].On? ==> NoneAlive(s)) && OnOnlyWhenNobody(Perform(run[0], s), run[1..])
  }

  /** At every moment at most one scan thread is alive, none while the status is
      idle, and the worker's reads never overlap a scan's, if and only if every
      ON finds no scan thread alive. OFF may come at any time. */
  lemma {:induction false} OneScanAtATime(s: State, run: seq<Action>)
    requires Orderly(s) && Possible(s, run)
    ensures Always(s, run, t => AtMostOneAlive(t) && NoOverlap(t) && Orderly(t)) <==> OnOnlyWhenNobody(s, run)
    ensures Always(s, run, t => AtMostOneAlive(t)) <==> OnOnlyWhenNobody(s, run)
    decreases run
  {
    OrderlyApart(s);
    if run != [] {
      var s' := Perform(run[0], s);
      if run[0].On? && !NoneAlive(s) {
        SecondScanAlive(s);
        assert !AtMostOneAlive(s');
      } else {
        OrderlyStep(run[0], s);
        OneScanAtATime(s', run[1..]);
      }
    }
  }

  /** In particular it is enough that every ON finds the status idle. */
  lemma {:induction false} IdleOnIsEnough(s: State, run: seq<Action>)
    requires Orderly(s) && Possible(s, run) && OnOnlyWhenIdle(s, run)
    ensures Always(s, run, t => AtMostOneAlive(t) && NoOverlap(t) && Orderly(t))
    ensures OnOnlyWhenNobody(s, run)
    decreases run
  {
    if run != [] {
      OrderlyStep(run[0], s);
      IdleOnIsEnough(Perform(run[0], s), run[1..]);
    }
    OneScanAtATime(s, run);
  }

  lemma {:induction false} OrderlyApart(s: State)
    requires Orderly(s)
    ensures NoOverlap(s)
  {}

  lemma {:induction false} SecondScanAlive(s: State)
    requires Enabled(On, s) && !NoneAlive(s)
    ensures !AtMostOneAlive(Perform(On, s))
  {
    var scan :| scan in s.scans && scan != Done;
    var i :| 0 <= i < |s.scans| && s.scans[i] == scan;
    var t := Perform(On, s);
    assert t.scans[i] == scan && t.scans[|s.scans|] == SwitchingOn;
  }

  // ----- the same in terms of the status -----

  /** Stopping, and nobody there to stop: no idle read and no scan any more. */
  predicate Wedged(s: State) {
    s.status == StopScan && NoneAlive(s)
  }

  /** What a reachable state of the connected module keeps as long as one scan
      at a time is alive. */
  predicate Connected(s: State) {
    Orderly(s) && SomebodyScans(s) && (s.status == Idle || s.status == Scanning || s.status == StopScan)
  }

  /** For a connected module nobody scans exactly when it is idle or wedged. */
  lemma {:induction false} NobodyIff(s: State)
    requires Connected(s)
    ensures NoneAlive(s) <==> s.status == Idle || Wedged(s)
  {
    if s.status == Scanning {
      assert s.scans[|s.scans| - 1] in s.scans;
    }
  }

  /** Whether, since the last ON, an OFF has found the status idle. */
  function OffWhileIdle(parked: bool, a: Action, status: Status): bool {
    match a
    case On => false
    case Off => parked || status == Idle
    case _ => parked
  }

  /** Every ON finds the status idle, or comes after an OFF that did. Both are
      things whoever gives the commands can see. */
  ghost predicate OnWhenSeenIdle(parked: bool, s: State, run: seq<Action>)
    requires Possible(s, run)
    decreases run
  {
    run != [] ==>
      && (run[0].On? ==> s.status == Idle || parked)
      && OnWhenSeenIdle(OffWhileIdle(parked, run[0], s.status), Perform(run[0], s), run[1..])
  }

  lemma {:induction false} ConnectedStep(a: Action, s: State)
    requires Connected(s) && Enabled(a, s) && (a.On? ==> NoneAlive(s))
    ensures Connected(Perform(a, s))
    ensures Wedged(Perform(a, s)) <==> OffWhileIdle(Wedged(s), a, s.status)
  {
    var t := Perform(a, s);
    OrderlyStep(a, s);
    NobodyIff(s);
    match a
    case On =>
      assert t.status == Scanning;
    case Advance(i) =>
      assert s.scans[i] in s.scans && t.scans[i] in t.scans;
    case _ =>
  }

  /** One scan at a time, and no overlap, in terms of the status alone. */
  lemma {:induction false} OneScanIffSeenIdle(s: State, run: seq<Action>)
    requires Connected(s) && Possible(s, run)
    ensures OnOnlyWhenNobody(s, run) <==> OnWhenSeenIdle(Wedged(s), s, run)
    ensures Always(s, run, t => AtMostOneAlive(t) && NoOverlap(t) && Orderly(t)) <==> OnWhenSeenIdle(Wedged(s), s, run)
    decreases run
  {
    OneScanAtATime(s, run);
    NobodyIff(s);
    if run != [] && (run[0].On? ==> NoneAlive(s)) {
      ConnectedStep(run[0], s);
      OneScanIffSeenIdle(Perform(run[0], s), run[1..]);
    }
  }

  // ----- what an ON too many leads to -----

  lemma {:induction false} Prefixed(s: State, a: Action, rest: seq<Action>)
    requires Enabled(a, s) && Possible(Perform(a, s), rest)
    ensures Possible(s, [a] + rest) && After(s, [a] + rest) == After(Perform(a, s), rest)
  {
    assert ([a] + rest)[1..] == rest;
  }

  lemma {:induction false} Joined(s: State, run: seq<Action>, rest: seq<Action>)
    requires Possible(s, run) && Possible(After(s, run), rest)
    ensures Possible(s, run + rest) && After(s, run + rest) == After(After(s, run), rest)
    decreases run
  {
    if run == [] {
      assert run + rest == rest;
    } else {
      assert run + rest == [run[0]] + (run[1..] + rest);
      Joined(Perform(run[0], s), run[1..], rest);
      Prefixed(s, run[0], run[1..] + rest);
    }
  }

  /** After OFF a scan thread can run to its end, by its own steps. */
  lemma {:induction false} WindDown(s: State, i: nat) returns (run: seq<Action>)
    requires i < |s.scans| && s.scans[i] != Done && s.status == StopScan
    ensures Possible(s, run) && forall a <- run :: a == Advance(i)
    ensures After(s, run) == s.(status := Idle, scans := s.scans[i := Done])
    decreases StepsLeft(s.scans[i])
  {
    var s' := Perform(Advance(i), s);
    if s'.scans[i] == Done {
      run := [Advance(i)];
      Prefixed(s, Advance(i), []);
    } else {
      var rest := WindDown(s', i);
      Prefixed(s, Advance(i), rest);
      run := [Advance(i)] + rest;
      assert s'.scans[i := Done] == s.scans[i := Done];
    }
  }

  ghost predicate NoOn(run: seq<Action>) {
    forall k :: 0 <= k < |run| ==> !run[k].On?
  }

  /** From every state with a free worker and a live scan, an ON has a
      continuation, without another ON, in which the worker reads the serial line
      together with the new scan: the old one, when it leaves, sets the status to
      idle. */
  lemma {:induction false} SecondOnCanOverlap(s: State, i: nat) returns (rest: seq<Action>)
    requires s.worker == Free && i < |s.scans| && s.scans[i] != Done
    ensures NoOn(rest) && Possible(Perform(On, s), rest) && !NoOverlap(After(Perform(On, s), rest))
  {
    var t := Perform(On, s);
    var u := Perform(Off, t);
    assert u.scans[i] == s.scans[i];
    var wind := WindDown(u, i);
    var v := After(u, wind);
    Prefixed(v, BeginRead, []);
    Joined(u, wind, [BeginRead] + []);
    Prefixed(t, Off, wind + ([BeginRead] + []));
    rest := [Off] + (wind + ([BeginRead] + []));
    var end := Perform(BeginRead, v);
    assert end.scans[|s.scans|] == SwitchingOn && end.scans[|s.scans|] in end.scans;
    forall k | 0 <= k < |rest|
      ensures !rest[k].On?
    {
      assert 0 < k <= |wind| ==> rest[k] == wind[k - 1] && wind[k - 1] in wind;
    }
  }

  lemma {:induction false} NoOnIsOrderly(s: State, run: seq<Action>)
    requires Possible(s, run) && NoOn(run)
    ensures OnOnlyWhenNobody(s, run)
    decreases run
  {
    if run != [] {
      assert forall k :: 0 <= k < |run[1..]| ==> run[1..][k] == run[k + 1];
      NoOnIsOrderly(Perform(run[0], s), run[1..]);
    }
  }

  lemma {:induction false} OrderlyAtEnd(s: State, run: seq<Action>)
    requires Orderly(s) && Possible(s, run) && OnOnlyWhenNobody(s, run)
    ensures Orderly(After(s, run))
    decreases run
  {
    if run != [] {
      OrderlyStep(run[0], s);
      OrderlyAtEnd(Perform(run[0], s), run[1..]);
    }
  }

  /** Whatever happens from here on, as long as every later ON finds nobody
      scanning, the worker and the scans stay apart. */
  ghost predicate SafeFrom(s: State) {
    forall run :: Possible(s, run) && OnOnlyWhenNobody(s, run) ==> NoOverlap(After(s, run))
  }

  /** An ON is safe if and only if it finds no scan thread alive. */
  lemma {:induction false} OnIsSafeIff(s: State)
    requires Orderly(s) && s.worker == Free
    ensures SafeFrom(Perform(On, s)) <==> NoneAlive(s)
  {
    var t := Perform(On, s);
    if NoneAlive(s) {
      OrderlyStep(On, s);
      forall run | Possible(t, run) && OnOnlyWhenNobody(t, run)
        ensures NoOverlap(After(t, run))
      {
        OrderlyAtEnd(t, run);
        OrderlyApart(After(t, run));
      }
    } else {
      var scan :| scan in s.scans && scan != Done;
      var i :| 0 <= i < |s.scans| && s.scans[i] == scan;
      var rest := SecondOnCanOverlap(s, i);
      NoOnIsOrderly(t, rest);
    }
  }

  /** The source can get there: two ON commands are enough. */
  lemma {:induction false} SecondOnOverlaps()
    ensures exists run :: Possible(CONNECTED, run) && !NoOverlap(After(CONNECTED, run))
  {
    var s := Perform(On, CONNECTED);
    var rest := SecondOnCanOverlap(s, 0);
    Prefixed(s, On, rest);
    Prefixed(CONNECTED, On, [On] + rest);
  }

  // ----- an OFF too many -----

  /** OFF is not executed while the status is idle. */
  ghost predicate OffNotWhenIdle(s: State, run: seq<Action>)
    requires Possible(s, run)
    decreases run
  {
    run != [] ==> (run[0].Off? ==> s.status != Idle) && OffNotWhenIdle(Perform(run[0], s), run[1..])
  }

  /** As long as the module is not wedged, it is idle exactly when no scan
      thread is alive. */
  predicate InStep(s: State) {
    && Orderly(s)
    && SomebodyScans(s)
    && (NoneAlive(s) ==> s.status == Idle)
  }

  lemma {:induction false} InStepStep(a: Action, s: State)
    requires InStep(s) && Enabled(a, s) && (a.On? ==> s.status == Idle)
    ensures InStep(Perform(a, s)) <==> !Wedged(Perform(a, s))
    ensures Wedged(Perform(a, s)) <==> a.Off? && s.status == Idle
  {
    var t := Perform(a, s);
    OrderlyStep(a, s);
    match a
    case On =>
      assert t.scans[|s.scans|] == SwitchingOn && t.scans[|s.scans|] in t.scans;
    case Advance(i) =>
      assert t.scans[i] in t.scans;
      assert s.scans[i] in s.scans;
    case _ =>
  }

  /** With ON only when idle, the module never gets wedged if and only if no
      OFF is executed while it is idle. */
  lemma {:induction false} WedgedOnlyByIdleOff(s: State, run: seq<Action>)
    requires InStep(s) && Possible(s, run) && OnOnlyWhenIdle(s, run)
    ensures Always(s, run, t => !Wedged(t)) <==> OffNotWhenIdle(s, run)
    decreases run
  {
    if NoneAlive(s) {
      assert s.status == Idle;
    }
    if run != [] {
      InStepStep(run[0], s);
      var s' := Perform(run[0], s);
      if !Wedged(s') {
        WedgedOnlyByIdleOff(s', run[1..]);
      }
    }
  }

  lemma {:induction false} NobodyAdvances(s: State, i: nat)
    requires NoneAlive(s)
    ensures !Enabled(Advance(i), s)
  {
    if i < |s.scans| {
      assert s.scans[i] in s.scans;
    }
  }

  /** Nothing but another ON gets it out of there. */
  lemma {:induction false} WedgedStaysWedged(s: State, run: seq<Action>)
    requires Wedged(s) && Possible(s, run) && forall a <- run :: !a.On?
    ensures Wedged(After(s, run))
    decreases run
  {
    if run != [] {
      var a := run[0];
      assert a in run && forall b <- run[1..] :: b in run;
      if a.Advance? {
        NobodyAdvances(s, a.thread);
      }
      WedgedStaysWedged(Perform(a, s), run[1..]);
    }
  }

  // ----- a scanning module scans -----

  /** The steps of one scan thread in a run. */
  function OwnSteps(run: seq<Action>, i: nat): nat {
    if run == [] then 0 else (if run[0] == Advance(i) then 1 else 0) + OwnSteps(run[1..], i)
  }

  /** How many steps of its own bring a new scan thread there first. */
  function Phase(scan: Scan): nat {
    match scan
    case SwitchingOn => 0
    case Testing => 1
    case _ => 2
  }

  /** As long as the status is scanning, a scan thread in its loop, counted from
      the beginning, waits for tags after every even number of its own steps but
      none and tests the status after every odd number, whatever the other
      threads do. */
  lemma {:induction false} ScanThreadScans(s: State, i: nat, run: seq<Action>)
    requires i < |s.scans| && InLoop(s.scans[i])
    requires Possible(s, run) && Always(s, run, (t: State) => t.status == Scanning)
    ensures i < |After(s, run).scans|
    ensures var scan, n := After(s, run).scans[i], Phase(s.scans[i]) + OwnSteps(run, i);
      && (scan == SwitchingOn <==> n == 0)
      && (scan == Testing <==> n % 2 == 1)
      && (scan == AwaitingTags <==> n >= 2 && n % 2 == 0)
    decreases run
  {
    if run != [] {
      var s' := Perform(run[0], s);
      assert run[1..] == [] ==> s'.status == Scanning;
      if run[0] == Advance(i) {
        FromPhase(s.scans[i], s'.scans[i], s.status, run[1..], i);
      }
      ScanThreadScans(s', i, run[1..]);
    }
  }

  lemma {:induction false} FromPhase(scan: Scan, next: Scan, status: Status, rest: seq<Action>, i: nat)
    requires InLoop(scan) && status == Scanning && next == NextOf(scan, status)
    ensures InLoop(next)
    ensures Phase(next) == if scan == AwaitingTags then 1 else Phase(scan) + 1
  {}

  /** Once the status is not scanning, no thread begins to wait for tags until
      there is another ON; one that was waiting does until its own next step. */
  lemma {:induction false} NoTagsAfterOff(s: State, i: nat, run: seq<Action>)
    requires i < |s.scans| && s.status != Scanning && Possible(s, run) && NoOn(run)
    ensures i < |After(s, run).scans| && After(s, run).status != Scanning
    ensures After(s, run).scans[i] == AwaitingTags <==> s.scans[i] == AwaitingTags && OwnSteps(run, i) == 0
    decreases run
  {
    if run != [] {
      assert forall k :: 0 <= k < |run[1..]| ==> run[1..][k] == run[k + 1];
      NoTagsAfterOff(Perform(run[0], s), i, run[1..]);
    }
  }

  // ----- after OFF the scan winds down -----

  /** The steps a scan thread still takes once the status is not scanning. */
  function StepsLeft(scan: Scan): nat {
    match scan
    case SwitchingOn => 4
    case AwaitingTags => 4
    case Testing => 3
    case SwitchingOff => 2
    case Leaving => 1
    case Done => 0
  }

  /** After OFF a scan thread, left to itself, is done after that many steps
      and has made the status idle again. */
  lemma {:induction false} OffWindsDown(s: State, i: nat, run: seq<Action>)
    requires i < |s.scans| && s.scans[i] != Done && s.status == StopScan
    requires Possible(s, run) && forall a <- run :: a == Advance(i)
    ensures |run| <= StepsLeft(s.scans[i])
    ensures |run| == StepsLeft(s.scans[i]) ==> After(s, run) == s.(status := Idle, scans := s.scans[i := Done])
    decreases run
  {
    if run != [] {
      assert run[0] in run && forall a <- run[1..] :: a in run;
      assert run[1..] != [] ==> run[1..][0] in run[1..];
      var s' := Perform(run[0], s);
      if s'.scans[i] != Done {
        OffWindsDown(s', i, run[1..]);
        assert s'.scans[i := Done] == s.scans[i := Done];
      }
    }
  }
}
