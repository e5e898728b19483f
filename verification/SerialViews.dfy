/** What is going to happen on the serial line, and the blocking reads as
    functions of it. The receiving thread may append and signal, in steps of their
    own, between any two steps of the reader: between reading the buffer, testing
    whether it is empty, resetting the flag and looking at the flags. */
module SerialViews {
  import opened Bytes
  import opened SerialBuffers

  /** The flag word, as the set of events whose bit is set. */
  type Events = set<nat>

  const TH_EVENT_NONE: nat := 0
  const TH_EVENT_STARTED: nat := 1
  const TH_EVENT_TERMINATE: nat := 2
  const TH_EVENT_DATA_RX: nat := 4
  const TIME_OUT: nat := 8
  const TH_EVENT_MAX: nat := 16

  const ALL_EVENTS: Events := {TH_EVENT_STARTED, TH_EVENT_TERMINATE, TH_EVENT_DATA_RX, TIME_OUT}

  /** The events a wait looks at: those asked for, and the end of the time if
      there is one. */
  function Mask(events: Events, waittime: nat): Events {
    if waittime != 0 then events + {TIME_OUT} else events - {TIME_OUT}
  }

  // ----- what is going to happen -----

  /** A step of the receiving thread: it appends what it has read, all under
      the lock of the buffer, and then signals. */
  datatype Step = Append(chunk: seq<byte>) | Signal

  /** What happens between two steps of the reader; a timed wait may be over. */
  datatype Moment = Moment(steps: seq<Step>, expired: bool)

  /** The bytes some steps append. */
  function Added(steps: seq<Step>): seq<byte> {
    if steps == [] then [] else (if steps[0].Append? then steps[0].chunk else []) + Added(steps[1..])
  }

  /** Whether a signal is due after some steps. */
  function DueAfter(due: bool, steps: seq<Step>): bool
    decreases |steps|
  {
    if steps == [] then due else DueAfter(steps[0].Append?, steps[1..])
  }

  /** Every append brings bytes and is followed by its signal. */
  predicate InTurn(due: bool, steps: seq<Step>)
    decreases |steps|
  {
    steps != [] ==>
      && (if steps[0].Append? then !due && steps[0].chunk != [] else due)
      && InTurn(steps[0].Append?, steps[1..])
  }

  /** The same through all moments, to a last signal. */
  predicate AllInTurn(due: bool, line: seq<Moment>)
    decreases |line|
  {
    if line == [] then !due
    else InTurn(due, line[0].steps) && AllInTurn(DueAfter(due, line[0].steps), line[1..])
  }

  /** The steps of the next moment, and what is left after it. */
  function Now(line: seq<Moment>): seq<Step> {
    if line == [] then [] else line[0].steps
  }

  function Rest(line: seq<Moment>): (rest: seq<Moment>)
    ensures |rest| <= |line| && (line != [] ==> |rest| < |line|)
  {
    if line == [] then [] else line[1..]
  }

  /** The bytes still to be delivered. */
  function Future(line: seq<Moment>): seq<byte> {
    if line == [] then [] else Added(line[0].steps) + Future(line[1..])
  }

  predicate NoExpiry(line: seq<Moment>) {
    forall m <- line :: !m.expired
  }

  // ----- what the reader can find -----

  /** The unread bytes, the flags, what is going to happen, whether a signal is
      due for bytes that are appended, and whether some reset was late: it came
      after bytes appended since the emptiness test, with no signal due. */
  datatype View = View(unread: seq<byte>, flags: Events, line: seq<Moment>, due: bool, late: bool) {
    predicate Up() {
      TH_EVENT_DATA_RX in flags
    }

    /** The byte stream from here on: what has arrived and what will. */
    function Stream(): seq<byte> {
      unread + Future(line)
    }

    /** No timed wait ends, and none has ended unnoticed. */
    predicate Punctual() {
      NoExpiry(line) && TIME_OUT !in flags
    }

    /** As long as no reset was late, unread bytes are announced. */
    predicate Coherent() {
      && flags <= ALL_EVENTS && AllInTurn(due, line)
      && (!late ==> unread != [] ==> Up() || due)
    }
  }

  /** A moment passes. */
  function Passed(v: View): (w: View)
    ensures w.line == Rest(v.line) && w.late == v.late
  {
    var steps := Now(v.line);
    View(v.unread + Added(steps), if Signal in steps then v.flags + {TH_EVENT_DATA_RX} else v.flags,
         Rest(v.line), DueAfter(v.due, steps), v.late)
  }

  /** The reset of the flag. It follows a test that found the buffer empty, so
      that unread bytes have been appended since. */
  function Reset(v: View): (w: View)
    ensures !w.Up()
  {
    v.(flags := v.flags - {TH_EVENT_DATA_RX}, late := v.late || (v.unread != [] && !v.due))
  }

  /** The emptiness test and, if it finds the buffer empty, the reset, with time
      to pass before each. */
  function Tested(v: View): (w: View)
    ensures |w.line| <= |v.line|
    ensures v.line == [] && v.unread == [] ==> !w.Up()
  {
    var w := Passed(v);
    if w.unread == [] then Reset(Passed(w)) else w
  }

  /** The waiting loop, for the events of a mask. */
  function Waited(v: View, mask: Events, timed: bool): (w: View)
    ensures |w.line| <= |v.line| && (v.line == [] ==> w == v)
    decreases |v.line|
  {
    if v.flags * mask != {} || v.line == [] then v
    else
      var w := Passed(v);
      Waited(if timed && v.line[0].expired then w.(flags := w.flags + {TIME_OUT}) else w, mask, timed)
  }

  lemma {:induction false} PassedKeeps(v: View)
    requires v.Coherent()
    ensures Passed(v).Coherent() && Passed(v).Stream() == v.Stream()
    ensures v.Punctual() ==> Passed(v).Punctual()
    ensures TIME_OUT in Passed(v).flags <==> TIME_OUT in v.flags
  {
    Unit(v.unread);
    if v.line != [] {
      DueIfAdded(v.due, Now(v.line));
      Assoc(v.unread, Added(Now(v.line)), Future(v.line[1..]));
    }
  }

  lemma {:induction false} TestedKeeps(v: View)
    requires v.Coherent()
    ensures Tested(v).Coherent() && Tested(v).Stream() == v.Stream()
    ensures v.Punctual() ==> Tested(v).Punctual()
    ensures TIME_OUT in Tested(v).flags <==> TIME_OUT in v.flags
    ensures v.late ==> Tested(v).late
  {
    PassedKeeps(v);
    if Passed(v).unread == [] {
      PassedKeeps(Passed(v));
    }
  }

  /** A moment passes, n of the unread bytes are taken, and the buffer is
      tested. */
  function Drained(v: View, n: nat): (w: View)
    requires n <= |Passed(v).unread|
    ensures |w.line| <= |v.line| && (v.line != [] ==> |w.line| < |v.line|)
    ensures v.line == [] && n == |Passed(v).unread| ==> !w.Up()
  {
    var w := Passed(v);
    Tested(w.(unread := w.unread[n..]))
  }

  lemma {:induction false} DrainedKeeps(v: View, n: nat)
    requires v.Coherent() && n <= |Passed(v).unread|
    ensures var w := Drained(v, n);
      && Follows(v, Passed(v).unread[..n], w)
      && (TIME_OUT in w.flags <==> TIME_OUT in v.flags)
  {
    var w := Passed(v);
    PassedKeeps(v);
    TestedKeeps(w.(unread := w.unread[n..]));
    SplitAt(w.unread, n);
    Assoc(w.unread[..n], w.unread[n..], Future(w.line));
  }

  lemma {:induction false} WaitedKeeps(v: View, mask: Events, timed: bool)
    requires v.Coherent()
    ensures var w := Waited(v, mask, timed);
      && w.Coherent() && w.Stream() == v.Stream() && w.late == v.late
      && (w.flags * mask == {} ==> w.line == [])
      && (v.Punctual() ==> w.Punctual())
    decreases |v.line|
  {
    if v.flags * mask == {} && v.line != [] {
      PassedKeeps(v);
      var w := Passed(v);
      WaitedKeeps(if timed && v.line[0].expired then w.(flags := w.flags + {TIME_OUT}) else w, mask, timed);
    }
  }

  /** w is reached from v, and `taken` are the bytes removed on the way. */
  ghost predicate Follows(v: View, taken: seq<byte>, w: View) {
    && v.Coherent() && w.Coherent() && v.Stream() == taken + w.Stream()
    && (v.late ==> w.late) && (v.Punctual() ==> w.Punctual()) && |w.line| <= |v.line|
  }

  lemma {:induction false} FollowsOn(u: View, a: seq<byte>, v: View, b: seq<byte>, w: View)
    requires Follows(u, a, v) && Follows(v, b, w)
    ensures Follows(u, a + b, w)
  {
    Assoc(a, b, w.Stream());
  }

  lemma {:induction false} FollowsItself(v: View)
    requires v.Coherent()
    ensures Follows(v, [], v)
  {
    Unit(v.Stream());
  }

  /** The flag is down, and unless a reset was late nothing has arrived whose
      signal is not to come. */
  predicate Unnoticed(v: View) {
    !v.Up() && (!v.late ==> v.unread == [] || v.due)
  }

  /** The same when nothing more is going to happen. */
  predicate OutOfSight(v: View) {
    !v.Up() && v.line == [] && (!v.late ==> v.Stream() == [])
  }

  /** How a wait for data ends. */
  function Ending(w: View, timeout: nat): nat {
    if w.Up() then TH_EVENT_DATA_RX
    else if timeout != 0 && TIME_OUT in w.flags then TIME_OUT
    else TH_EVENT_NONE
  }

  /** The lowest of the events waited for is that ending. */
  lemma {:induction false} EndingIsLowest(w: View, timeout: nat, event: nat)
    requires var pending := w.flags * Mask({TH_EVENT_DATA_RX}, timeout);
      if event == TH_EVENT_NONE then pending == {} else event in pending && forall e <- pending :: event <= e
    ensures event == Ending(w, timeout)
  {
    var pending := w.flags * Mask({TH_EVENT_DATA_RX}, timeout);
    assert w.Up() <==> TH_EVENT_DATA_RX in pending;
    assert timeout != 0 && TIME_OUT in w.flags <==> TIME_OUT in pending;
  }

  /** A wait that finds a TIME_OUT left over, or that nothing can end, looks at
      the flags once. */
  lemma {:induction false} LooksOnce(v: View, timeout: nat)
    ensures (timeout != 0 && TIME_OUT in v.flags) || v.line == [] ==>
            Waited(v, Mask({TH_EVENT_DATA_RX}, timeout), timeout != 0) == v
  {
    assert timeout != 0 && TIME_OUT in v.flags ==> TIME_OUT in v.flags * Mask({TH_EVENT_DATA_RX}, timeout);
  }

  /** The wait of the blocking reads: a timeout is taken notice of. */
  function Awaited(v: View, timeout: nat): (w: View)
    ensures |w.line| <= |v.line| && (v.line != [] ==> |w.line| < |v.line|)
    ensures v.line == [] && w.Up() ==> v.Up()
  {
    var w := Waited(Passed(v), Mask({TH_EVENT_DATA_RX}, timeout), timeout != 0);
    if Ending(w, timeout) == TIME_OUT then w.(flags := w.flags - {TIME_OUT}) else w
  }

  function AwaitedEvent(v: View, timeout: nat): nat {
    Ending(Waited(Passed(v), Mask({TH_EVENT_DATA_RX}, timeout), timeout != 0), timeout)
  }

  /** The DATA_RX flag wins over the timeout, which is reported only when it is
      down. Unless a reset was late, nothing has arrived then whose signal is
      not to come. */
  lemma {:induction false} AwaitedKeeps(v: View, timeout: nat)
    requires v.Coherent()
    ensures var w, event := Awaited(v, timeout), AwaitedEvent(v, timeout);
      && Follows(v, [], w)
      && (event == TH_EVENT_DATA_RX <==> w.Up())
      && (event == TIME_OUT ==> timeout != 0 && TIME_OUT !in w.flags && Unnoticed(w) && !v.Punctual())
      && (event == TH_EVENT_NONE ==> OutOfSight(w))
  {
    var u := Passed(v);
    var mask := Mask({TH_EVENT_DATA_RX}, timeout);
    var x := Waited(u, mask, timeout != 0);
    PassedKeeps(v);
    WaitedKeeps(u, mask, timeout != 0);
    LooksOnce(u, timeout);
    NothingPending(x, timeout);
    Unit(v.Stream());
    Unit(Future(x.line));
  }

  lemma {:induction false} NothingPending(w: View, timeout: nat)
    ensures Ending(w, timeout) == TH_EVENT_NONE ==> w.flags * Mask({TH_EVENT_DATA_RX}, timeout) == {}
  {}

  lemma {:induction false} DueIfAdded(due: bool, steps: seq<Step>)
    requires InTurn(due, steps)
    ensures Added(steps) != [] || due ==> DueAfter(due, steps) || Signal in steps
    decreases |steps|
  {
    if steps != [] {
      assert steps == [steps[0]] + steps[1..];
      DueIfAdded(steps[0].Append?, steps[1..]);
    }
  }
}
