/** The blocking reads of the serial helper, as functions of what is going to
    happen, and what they keep. */
module SerialReads {
  import opened Bytes
  import opened SerialBuffers
  import opened SerialViews

  // ----- reads that never wait -----

  /** With a TIME_OUT left over the wait is a look at the flag. */
  lemma {:induction false} StarvedAwaiting(v: View, timeout: nat, missing: nat)
    requires timeout != 0 && TIME_OUT in v.flags
    ensures AwaitedEvent(v, timeout) == if Passed(v).Up() then TH_EVENT_DATA_RX else TIME_OUT
    ensures Passed(v).Up() ==>
      && Awaited(v, timeout) == Passed(v) && TIME_OUT in Passed(v).flags
      && (StarvedLooking(v, missing) <==> Starved(Passed(v), missing))
    ensures !Passed(v).Up() ==> StarvedLooking(v, missing)
  {
    LooksOnce(Passed(v), timeout);
  }

  /** Whether a read that never waits, because a TIME_OUT is left over, runs out
      of data with `missing` bytes to go: it takes what is there, tests and
      resets, and sooner or later finds the flag down, whatever the buffer holds
      then. */
  predicate Starved(v: View, missing: nat)
    decreases |v.line|, v.Up(), 1
  {
    var w := Passed(v);
    |w.unread| < missing && StarvedLooking(Tested(w.(unread := [])), missing - |w.unread|)
  }

  /** The same when the flag is looked at next. */
  predicate StarvedLooking(v: View, missing: nat)
    decreases |v.line|, v.Up(), if v.Up() then 2 else 0
  {
    Passed(v).Up() ==> Starved(Passed(v), missing)
  }

  /** Nothing but a signal that falls between test and reset: the read fails
      although all it needs has arrived and has been signalled. */
  lemma {:induction false} LateSignalStarves(v: View, chunk: seq<byte>, missing: nat)
    requires v.unread == [] && 0 < missing <= |chunk| && |v.line| >= 4
    requires Now(v.line) == Now(v.line[1..]) == Now(v.line[3..]) == [] && Now(v.line[2..]) == [Append(chunk), Signal]
    ensures Starved(v, missing)
  {
    var w := Passed(v);
    var x := Passed(w);
    assert w.line == v.line[1..] && x.line == v.line[2..] && Passed(x).line == v.line[3..];
    assert w.unread == x.unread == [] && w.(unread := []) == w;
    var y := Tested(w);
    assert !y.Up() && y.line == v.line[3..];
    assert !Passed(y).Up();
  }

  // ----- the blocking reads, as functions of what is going to happen -----

  datatype Outcome = Filled | TimedOut | Stuck

  /** How a read ends, what it has taken, and what it leaves. */
  datatype Reading = Reading(outcome: Outcome, taken: seq<byte>, view: View)

  /** A reading that has taken a part before. */
  function Ahead(part: seq<byte>, r: Reading): Reading {
    r.(taken := part + r.taken)
  }

  function Least(a: nat, b: nat): nat {
    if a <= b then a else b
  }

  /** The loop of Read_N, with `missing` bytes to go. */
  function Waiting(v: View, missing: nat, timeout: nat): Reading
    requires missing > 0
    decreases missing, |v.line|, v.Up()
  {
    var w, event := Awaited(v, timeout), AwaitedEvent(v, timeout);
    if event == TH_EVENT_NONE then Reading(Stuck, [], w)
    else if event == TIME_OUT then Reading(TimedOut, [], w)
    else
      var there := Passed(w).unread;
      var n := Least(missing, |there|);
      if n == missing then Reading(Filled, there[..n], Drained(w, n))
      else
        Ahead(there[..n], Waiting(Drained(w, n), missing - n, timeout))
  }

  /** All of Read_N. */
  function Whole(v: View, count: nat, timeout: nat): Reading {
    var there := Passed(v).unread;
    var n := Least(count, |there|);
    if n == count then Reading(Filled, there[..n], Drained(v, n))
    else Ahead(there[..n], Waiting(Drained(v, n), count - n, timeout))
  }

  /** How many bytes a look for the terminator takes. */
  function Reach(there: seq<byte>, term: byte): (n: nat)
    ensures n <= |there|
  {
    if term in there then FirstIndex(there, term) + 1 else |there|
  }

  /** The loop of Read_Upto. */
  function Seeking(v: View, term: byte, timeout: nat): Reading
    decreases |v.line|, v.Up()
  {
    var w, event := Awaited(v, timeout), AwaitedEvent(v, timeout);
    if event == TH_EVENT_NONE then Reading(Stuck, [], w)
    else if event == TIME_OUT then Reading(TimedOut, [], w)
    else
      var there := Passed(w).unread;
      var n := Reach(there, term);
      if term in there then Reading(Filled, there[..n], Drained(w, n))
      else
        Ahead(there[..n], Seeking(Drained(w, n), term, timeout))
  }

  /** All of Read_Upto. */
  function Terminated(v: View, term: byte, timeout: nat): Reading {
    var there := Passed(v).unread;
    var n := Reach(there, term);
    if term in there then Reading(Filled, there[..n], Drained(v, n))
    else Ahead(there[..n], Seeking(Drained(v, n), term, timeout))
  }

  /** What every read keeps, and what it means that it fails or never returns. */
  ghost predicate Keeps(v: View, r: Reading, timeout: nat) {
    && Follows(v, r.taken, r.view)
    && (r.outcome == TimedOut ==>
          timeout != 0 && Unnoticed(r.view) && TIME_OUT !in r.view.flags && !v.Punctual())
    && (r.outcome == Stuck ==> OutOfSight(r.view))
  }

  /** A read that begins with a part and goes on from there. */
  lemma {:induction false} KeepsOn(v: View, part: seq<byte>, w: View, r: Reading, timeout: nat)
    requires Follows(v, part, w) && Keeps(w, r, timeout)
    ensures Keeps(v, Ahead(part, r), timeout)
  {
    FollowsOn(v, part, w, r.taken, r.view);
  }

  lemma {:induction false} AheadTwice(a: seq<byte>, b: seq<byte>, r: Reading)
    ensures Ahead(a, Ahead(b, r)) == Ahead(a + b, r)
  {
    Assoc(a, b, r.taken);
  }

  lemma {:induction false} AwaitEnds(v: View, timeout: nat)
    requires v.Coherent()
    ensures var w, event := Awaited(v, timeout), AwaitedEvent(v, timeout);
      && (event == TH_EVENT_NONE ==> Keeps(v, Reading(Stuck, [], w), timeout))
      && (event == TIME_OUT ==> Keeps(v, Reading(TimedOut, [], w), timeout))
  {
    AwaitedKeeps(v, timeout);
  }

  lemma {:induction false} AwaitThenDrain(v: View, timeout: nat, n: nat)
    requires v.Coherent() && n <= |Passed(Awaited(v, timeout)).unread|
    ensures var w := Awaited(v, timeout);
      Follows(v, Passed(w).unread[..n], Drained(w, n))
  {
    var w := Awaited(v, timeout);
    AwaitedKeeps(v, timeout);
    DrainedKeeps(w, n);
    FollowsOn(v, [], w, Passed(w).unread[..n], Drained(w, n));
    Unit(Passed(w).unread[..n]);
  }

  lemma {:induction false} KeepsFilled(v: View, part: seq<byte>, w: View, timeout: nat)
    requires Follows(v, part, w)
    ensures Keeps(v, Reading(Filled, part, w), timeout)
  {}

  lemma {:induction false} WaitingKeeps(v: View, missing: nat, timeout: nat)
    requires v.Coherent() && missing > 0
    ensures Keeps(v, Waiting(v, missing, timeout), timeout)
    decreases missing, |v.line|, v.Up()
  {
    var w, event := Awaited(v, timeout), AwaitedEvent(v, timeout);
    if event == TH_EVENT_DATA_RX {
      var n := Least(missing, |Passed(w).unread|);
      var part, x := Passed(w).unread[..n], Drained(w, n);
      AwaitThenDrain(v, timeout, n);
      if n < missing {
        var r := Waiting(x, missing - n, timeout);
        WaitingKeeps(x, missing - n, timeout);
        KeepsOn(v, part, x, r, timeout);
        assert Waiting(v, missing, timeout) == Ahead(part, r);
      } else {
        KeepsFilled(v, part, x, timeout);
        assert Waiting(v, missing, timeout) == Reading(Filled, part, x);
      }
    } else {
      AwaitEnds(v, timeout);
    }
  }

  /** A read takes all it was asked for exactly when it completes. */
  lemma {:induction false} WaitingTakes(v: View, missing: nat, timeout: nat)
    requires missing > 0
    ensures var r := Waiting(v, missing, timeout);
      |r.taken| <= missing && (|r.taken| == missing <==> r.outcome == Filled) && |r.view.line| <= |v.line|
    decreases missing, |v.line|, v.Up()
  {
    var w, event := Awaited(v, timeout), AwaitedEvent(v, timeout);
    if event == TH_EVENT_DATA_RX {
      var n := Least(missing, |Passed(w).unread|);
      if n < missing {
        WaitingTakes(Drained(w, n), missing - n, timeout);
      }
    }
  }

  lemma {:induction false} WholeKeeps(v: View, count: nat, timeout: nat)
    requires v.Coherent()
    ensures Keeps(v, Whole(v, count, timeout), timeout)
  {
    var n := Least(count, |Passed(v).unread|);
    var part, w := Passed(v).unread[..n], Drained(v, n);
    DrainedKeeps(v, n);
    if n < count {
      var r := Waiting(w, count - n, timeout);
      WaitingKeeps(w, count - n, timeout);
      KeepsOn(v, part, w, r, timeout);
      assert Whole(v, count, timeout) == Ahead(part, r);
    } else {
      KeepsFilled(v, part, w, timeout);
      assert Whole(v, count, timeout) == Reading(Filled, part, w);
    }
  }

  lemma {:induction false} WholeTakes(v: View, count: nat, timeout: nat)
    ensures var r := Whole(v, count, timeout);
      && |r.taken| <= count && (|r.taken| == count <==> r.outcome == Filled)
      && |r.view.line| <= |v.line| && (v.line != [] ==> |r.view.line| < |v.line|)
  {
    var n := Least(count, |Passed(v).unread|);
    var part, w, r := Passed(v).unread[..n], Drained(v, n), Whole(v, count, timeout);
    if n < count {
      WaitingTakes(w, count - n, timeout);
      assert r == Ahead(part, Waiting(w, count - n, timeout));
    } else {
      assert r == Reading(Filled, part, w);
    }
  }

  /** One round of the loop, after some bytes have been taken. */
  lemma {:induction false} WaitingStep(v: View, missing: nat, timeout: nat, taken: seq<byte>)
    requires missing > 0
    ensures var r := Ahead(taken, Waiting(v, missing, timeout));
      var w, event := Awaited(v, timeout), AwaitedEvent(v, timeout);
      if event == TH_EVENT_NONE then r == Reading(Stuck, taken, w)
      else if event == TIME_OUT then r == Reading(TimedOut, taken, w)
      else
        var n := Least(missing, |Passed(w).unread|);
        var taken', x := taken + Passed(w).unread[..n], Drained(w, n);
        if n == missing then r == Reading(Filled, taken', x)
        else r == Ahead(taken', Waiting(x, missing - n, timeout))
  {
    var w := Awaited(v, timeout);
    var n := Least(missing, |Passed(w).unread|);
    Unit(taken);
    if n < missing {
      AheadTwice(taken, Passed(w).unread[..n], Waiting(Drained(w, n), missing - n, timeout));
    }
  }

  lemma {:induction false} SeekingKeeps(v: View, term: byte, timeout: nat)
    requires v.Coherent()
    ensures var r := Seeking(v, term, timeout);
      && Keeps(v, r, timeout) && if r.outcome == Filled then EndsWithFirst(r.taken, term) else term !in r.taken
    decreases |v.line|, v.Up()
  {
    var w, event := Awaited(v, timeout), AwaitedEvent(v, timeout);
    AwaitEnds(v, timeout);
    if event == TH_EVENT_DATA_RX {
      var there := Passed(w).unread;
      var n := Reach(there, term);
      var part, x := there[..n], Drained(w, n);
      AwaitThenDrain(v, timeout, n);
      Reached(there, term);
      if term !in there {
        var r := Seeking(x, term, timeout);
        SeekingKeeps(x, term, timeout);
        KeepsOn(v, part, x, r, timeout);
        StillFirst(part, r.taken, term);
      } else {
        KeepsFilled(v, part, x, timeout);
      }
    }
  }

  lemma {:induction false} Reached(there: seq<byte>, term: byte)
    ensures var part := there[..Reach(there, term)];
      if term in there then EndsWithFirst(part, term) else term !in part
  {
    UptoTaken([], there, term, Reach(there, term));
    Unit(there[..Reach(there, term)]);
  }

  lemma {:induction false} SeekingStep(v: View, term: byte, timeout: nat, taken: seq<byte>)
    ensures var r, w, event := Ahead(taken, Seeking(v, term, timeout)), Awaited(v, timeout), AwaitedEvent(v, timeout);
      if event == TH_EVENT_NONE then r == Reading(Stuck, taken, w)
      else if event == TIME_OUT then r == Reading(TimedOut, taken, w)
      else
        var there := Passed(w).unread;
        var n := Reach(there, term);
        var taken', x := taken + there[..n], Drained(w, n);
        if term in there then r == Reading(Filled, taken', x)
        else r == Ahead(taken', Seeking(x, term, timeout))
  {
    var w := Awaited(v, timeout);
    var there := Passed(w).unread;
    var n := Reach(there, term);
    Unit(taken);
    if AwaitedEvent(v, timeout) == TH_EVENT_DATA_RX && term !in there {
      AheadTwice(taken, there[..n], Seeking(Drained(w, n), term, timeout));
    }
  }

  lemma {:induction false} TerminatedKeeps(v: View, term: byte, timeout: nat)
    requires v.Coherent()
    ensures var r := Terminated(v, term, timeout);
      && Keeps(v, r, timeout) && if r.outcome == Filled then EndsWithFirst(r.taken, term) else term !in r.taken
  {
    var there := Passed(v).unread;
    var n := Reach(there, term);
    var w := Drained(v, n);
    DrainedKeeps(v, n);
    Reached(there, term);
    if term !in there {
      var r := Seeking(w, term, timeout);
      SeekingKeeps(w, term, timeout);
      KeepsOn(v, there[..n], w, r, timeout);
      StillFirst(there[..n], r.taken, term);
    }
  }

  lemma {:induction false} StillFirst(a: seq<byte>, b: seq<byte>, term: byte)
    requires term !in a
    ensures EndsWithFirst(b, term) ==> EndsWithFirst(a + b, term)
    ensures term !in b ==> term !in a + b
  {
    if b != [] {
      assert (a + b)[..|a + b| - 1] == a + b[..|b| - 1];
    }
  }

  /** With a TIME_OUT left over, a timed read fails exactly when it is starved;
      there is no third way. */
  lemma {:induction false} FailsIfStarvedLooking(v: View, missing: nat, timeout: nat)
    requires timeout != 0 && TIME_OUT in v.flags && v.Coherent() && missing > 0
    ensures Waiting(v, missing, timeout).outcome == if StarvedLooking(v, missing) then TimedOut else Filled
    decreases missing, |v.line|, v.Up()
  {
    var r := Waiting(v, missing, timeout);
    LookingStep(v, missing);
    StarvedAwaiting(v, timeout, missing);
    WaitingStep(v, missing, timeout, []);
    Unit(r.taken);
    if Passed(v).Up() {
      var w := Passed(v);
      var n := Least(missing, |Passed(w).unread|);
      StillLeft(v, n);
      if n < missing {
        FailsIfStarvedLooking(Drained(w, n), missing - n, timeout);
      }
    }
  }

  lemma {:induction false} LookingStep(v: View, missing: nat)
    ensures var w := Passed(v);
      var n := |Passed(w).unread|;
      StarvedLooking(v, missing) <==> w.Up() ==> n < missing && StarvedLooking(Drained(w, n), missing - n)
  {
    StarvedDraining(Passed(v), missing);
  }

  lemma {:induction false} StillLeft(v: View, n: nat)
    requires v.Coherent() && TIME_OUT in v.flags && n <= |Passed(Passed(v)).unread|
    ensures var w := Drained(Passed(v), n);
      w.Coherent() && TIME_OUT in w.flags
  {
    PassedKeeps(v);
    DrainedKeeps(Passed(v), n);
  }

  lemma {:induction false} FailsIfStarved(v: View, count: nat, timeout: nat)
    requires timeout != 0 && TIME_OUT in v.flags && v.Coherent()
    ensures Whole(v, count, timeout).outcome == if Starved(v, count) then TimedOut else Filled
  {
    var starved, r := Starved(v, count), Whole(v, count, timeout);
    var n := Least(count, |Passed(v).unread|);
    var w := Drained(v, n);
    StarvedDraining(v, count);
    DrainedKeeps(v, n);
    if n < count {
      FailsIfStarvedLooking(w, count - n, timeout);
      assert r == Ahead(Passed(v).unread[..n], Waiting(w, count - n, timeout));
      assert starved == StarvedLooking(w, count - n);
    } else {
      assert !starved && r.outcome == Filled;
    }
  }

  /** The same signal makes a read without a time limit wait forever, with all
      the bytes it needs in the buffer. */
  lemma {:induction false} LateSignalBlocks(v: View, chunk: seq<byte>, count: nat)
    requires v.unread == [] && 0 < count <= |chunk| && |v.line| == 3
    requires Now(v.line) == Now(v.line[1..]) == [] && Now(v.line[2..]) == [Append(chunk), Signal]
    ensures var r := Whole(v, count, 0);
      r.outcome == Stuck && r.view.unread == chunk && r.view.late
  {
    var w := Passed(v);
    var x := Passed(w);
    var y := Passed(x);
    assert w.line == v.line[1..] && x.line == v.line[2..] && y.line == [];
    assert w.unread == x.unread == [];
    ChunkArrives(x, chunk);
    var z := Reset(y);
    assert Tested(w) == z && Drained(v, 0) == z;
    assert Passed(z).unread == chunk && Passed(z).line == [] && !Passed(z).Up();
    LooksOnce(Passed(z), 0);
    var r := Waiting(z, count, 0);
    assert Least(count, 0) == 0;
    assert Whole(v, count, 0) == Ahead([], r);
  }

  lemma {:induction false} ChunkArrives(v: View, chunk: seq<byte>)
    requires v.unread == [] && Now(v.line) == [Append(chunk), Signal]
    ensures Passed(v).unread == chunk && !Passed(v).due
  {
    var steps := Now(v.line);
    var later := steps[1..];
    assert later == [Signal] && later[1..] == [];
    assert Added(later) == [] + Added(later[1..]) == [];
    assert DueAfter(v.due, steps) == DueAfter(true, later) == DueAfter(false, later[1..]);
    Unit(chunk);
  }

  lemma {:induction false} TakenWhole(v: View, taken: seq<byte>)
    requires taken == Passed(v).unread
    ensures taken[..|taken|] == taken && Drained(v, |taken|) == Tested(Passed(v).(unread := []))
  {
    assert taken[|taken|..] == [];
  }

  lemma {:induction false} StarvedDraining(v: View, count: nat)
    ensures var there := |Passed(v).unread|;
      Starved(v, count) <==> there < count && StarvedLooking(Drained(v, there), count - there)
  {
    assert Passed(v).unread[|Passed(v).unread|..] == [];
  }

  /** The terminator is the last byte and occurs nowhere before. */
  predicate EndsWithFirst(s: seq<byte>, term: byte) {
    s != [] && s[|s| - 1] == term && term !in s[..|s| - 1]
  }

  lemma {:induction false} FirstAtEnd(data: seq<byte>, u: seq<byte>, term: byte)
    requires term !in data && term in u
    ensures EndsWithFirst(data + u[..FirstIndex(u, term) + 1], term)
  {
    var k := FirstIndex(u, term);
    var s := data + u[..k + 1];
    assert s[..|s| - 1] == data + u[..k];
  }

  lemma {:induction false} UptoTaken(data: seq<byte>, u: seq<byte>, term: byte, n: nat)
    requires term !in data && n == if term in u then FirstIndex(u, term) + 1 else |u|
    ensures term in u ==> EndsWithFirst(data + u[..n], term)
    ensures term !in u ==> term !in data + u[..n] && u[n..] == []
  {
    if term in u {
      FirstAtEnd(data, u, term);
    }
  }
}
