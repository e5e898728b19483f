/** When a blocking read runs out of time, said of the moments alone: which of
    them brings a signal, and at which of them a timed wait may end. */
module SerialTimeouts {
  import opened Bytes
  import opened SerialBuffers
  import opened SerialViews
  import opened SerialReads

  /** No signal up to and including moment n. */
  predicate SilentTo(line: seq<Moment>, n: int) {
    forall k :: 0 <= k <= n && k < |line| ==> Signal !in line[k].steps
  }

  predicate Expires(line: seq<Moment>, n: int) {
    0 <= n < |line| && line[n].expired
  }

  // ----- one wait -----

  /** A wait that begins with moment 0 and looks at the flags after every one
      runs out of time: the flag is down, and either a TIME_OUT is left over, or
      the time is over at some later moment up to which there is no signal. */
  ghost predicate TimesOut(v: View, timeout: nat) {
    && timeout != 0 && !v.Up() && SilentTo(v.line, 0)
    && (TIME_OUT in v.flags || exists n :: n >= 1 && Expires(v.line, n) && SilentTo(v.line, n))
  }

  /** The wait finds the flag up after moment n: that is the first one with a
      signal, and the time was not over before. */
  ghost predicate DataAt(v: View, timeout: nat, n: nat) {
    if n == 0 then v.Up() || !SilentTo(v.line, 0)
    else
      && !v.Up() && n < |v.line| && Signal in v.line[n].steps && SilentTo(v.line, n - 1)
      && (timeout != 0 ==> TIME_OUT !in v.flags && forall k :: 1 <= k < n ==> !Expires(v.line, k))
  }

  /** n moments pass. */
  function Elapsed(v: View, n: nat): (w: View)
    ensures |w.line| <= |v.line| && (n > 0 && v.line != [] ==> |w.line| < |v.line|)
    decreases n
  {
    if n == 0 then v else Elapsed(Passed(v), n - 1)
  }

  /** What such a wait leaves: if the time is over at the very moment of the
      signal, data wins and a TIME_OUT is left over. */
  function AfterData(v: View, timeout: nat, n: nat): (w: View)
    ensures |w.line| <= |v.line| && (v.line != [] ==> |w.line| < |v.line|)
  {
    var w := Elapsed(v, n + 1);
    if timeout != 0 && n >= 1 && Expires(v.line, n) then w.(flags := w.flags + {TIME_OUT}) else w
  }

  // ----- the loop of the wait -----

  ghost predicate LoopTimesOut(u: View, timeout: nat) {
    && timeout != 0 && !u.Up()
    && (TIME_OUT in u.flags || exists n :: Expires(u.line, n) && SilentTo(u.line, n))
  }

  ghost predicate LoopDataAfter(u: View, timeout: nat, n: nat) {
    if n == 0 then u.Up()
    else
      && !u.Up() && n <= |u.line| && Signal in u.line[n - 1].steps && SilentTo(u.line, n - 2)
      && (timeout != 0 ==> TIME_OUT !in u.flags && forall k :: 0 <= k < n - 1 ==> !Expires(u.line, k))
  }

  function LoopAfter(u: View, timeout: nat, n: nat): View {
    var w := Elapsed(u, n);
    if timeout != 0 && n >= 1 && Expires(u.line, n - 1) then w.(flags := w.flags + {TIME_OUT}) else w
  }

  function OneRound(u: View, timeout: nat): View
    requires u.line != []
  {
    var w := Passed(u);
    if timeout != 0 && u.line[0].expired then w.(flags := w.flags + {TIME_OUT}) else w
  }

  lemma {:induction false} SilentLater(line: seq<Moment>, n: int)
    requires line != [] && n >= 0
    ensures SilentTo(line, n) <==> Signal !in line[0].steps && SilentTo(line[1..], n - 1)
  {
    if SilentTo(line, n) {
      assert forall k :: 0 <= k <= n - 1 && k < |line[1..]| ==> line[1..][k] == line[k + 1];
    }
    if Signal !in line[0].steps && SilentTo(line[1..], n - 1) {
      forall k | 0 <= k <= n && k < |line|
        ensures Signal !in line[k].steps
      {
        if k > 0 {
          assert line[k] == line[1..][k - 1];
        }
      }
    }
  }

  lemma {:induction false} RoundTimesOut(u: View, timeout: nat)
    requires !u.Up() && u.line != [] && (timeout != 0 ==> TIME_OUT !in u.flags)
    ensures LoopTimesOut(u, timeout) <==> LoopTimesOut(OneRound(u, timeout), timeout)
  {
    var w := OneRound(u, timeout);
    if n :| Expires(u.line, n) && SilentTo(u.line, n) {
      SilentLater(u.line, n);
      if n > 0 {
        assert Expires(w.line, n - 1) && SilentTo(w.line, n - 1);
      }
    }
    if n :| Expires(w.line, n) && SilentTo(w.line, n) {
      SilentLater(u.line, n + 1);
      if !w.Up() {
        assert Expires(u.line, n + 1) && SilentTo(u.line, n + 1);
      }
    }
    if Signal !in u.line[0].steps && u.line[0].expired {
      assert Expires(u.line, 0) && SilentTo(u.line, 0);
    }
  }

  lemma {:induction false} LoopTimeout(u: View, timeout: nat)
    ensures Ending(Waited(u, Mask({TH_EVENT_DATA_RX}, timeout), timeout != 0), timeout) == TIME_OUT
            <==> LoopTimesOut(u, timeout)
    decreases |u.line|
  {
    LooksOnce(u, timeout);
    MaskEmpty(u, timeout);
    if !u.Up() && u.line != [] && (timeout != 0 ==> TIME_OUT !in u.flags) {
      RoundTimesOut(u, timeout);
      LoopTimeout(OneRound(u, timeout), timeout);
    }
  }

  lemma {:induction false} MaskEmpty(u: View, timeout: nat)
    ensures u.flags * Mask({TH_EVENT_DATA_RX}, timeout) == {} <==> !u.Up() && (timeout != 0 ==> TIME_OUT !in u.flags)
  {
    var pending := u.flags * Mask({TH_EVENT_DATA_RX}, timeout);
    assert u.Up() <==> TH_EVENT_DATA_RX in pending;
    assert timeout != 0 && TIME_OUT in u.flags <==> TIME_OUT in pending;
    if pending != {} {
      var e :| e in pending;
      assert e == TH_EVENT_DATA_RX || e == TIME_OUT;
    }
  }

  lemma {:induction false} RoundData(u: View, timeout: nat, n: nat)
    requires !u.Up() && u.line != [] && (timeout != 0 ==> TIME_OUT !in u.flags) && n >= 1
    ensures LoopDataAfter(u, timeout, n) <==> LoopDataAfter(OneRound(u, timeout), timeout, n - 1)
    ensures LoopDataAfter(u, timeout, n) ==> LoopAfter(u, timeout, n) == LoopAfter(OneRound(u, timeout), timeout, n - 1)
  {
    var line := u.line;
    assert forall k :: 0 <= k < |line[1..]| ==> line[1..][k] == line[k + 1];
    assert forall k :: Expires(line[1..], k) <==> k >= 0 && Expires(line, k + 1);
    if n >= 2 {
      SilentLater(line, n - 2);
      assert Expires(line, 0) <==> line[0].expired;
      if LoopDataAfter(OneRound(u, timeout), timeout, n - 1) && timeout != 0 {
        forall k | 0 <= k < n - 1
          ensures !Expires(line, k)
        {
          if k > 0 {
            assert !Expires(line[1..], k - 1);
          }
        }
      }
    } else {
      assert Elapsed(u, 1) == Elapsed(Passed(u), 0);
    }
  }

  lemma {:induction false} LoopData(u: View, timeout: nat)
    ensures Ending(Waited(u, Mask({TH_EVENT_DATA_RX}, timeout), timeout != 0), timeout) == TH_EVENT_DATA_RX
            <==> exists n: nat :: LoopDataAfter(u, timeout, n)
    decreases |u.line|
  {
    LooksOnce(u, timeout);
    MaskEmpty(u, timeout);
    if u.Up() {
      assert LoopDataAfter(u, timeout, 0);
    } else if u.line != [] && (timeout != 0 ==> TIME_OUT !in u.flags) {
      var w := OneRound(u, timeout);
      LoopData(w, timeout);
      if n: nat :| LoopDataAfter(u, timeout, n) {
        RoundData(u, timeout, n);
      }
      if n: nat :| LoopDataAfter(w, timeout, n) {
        RoundData(u, timeout, n + 1);
      }
    }
  }

  lemma {:induction false} LoopView(u: View, timeout: nat, n: nat)
    requires LoopDataAfter(u, timeout, n)
    ensures Waited(u, Mask({TH_EVENT_DATA_RX}, timeout), timeout != 0) == LoopAfter(u, timeout, n)
    decreases n
  {
    MaskEmpty(u, timeout);
    if n > 0 {
      RoundData(u, timeout, n);
      LoopView(OneRound(u, timeout), timeout, n - 1);
    }
  }

  // ----- the wait as a whole -----

  lemma {:induction false} FirstMoment(v: View, timeout: nat)
    ensures TimesOut(v, timeout) <==> LoopTimesOut(Passed(v), timeout)
  {
    var u := Passed(v);
    assert u.Up() <==> v.Up() || !SilentTo(v.line, 0);
    if v.line != [] {
      assert forall k :: 0 <= k < |u.line| ==> u.line[k] == v.line[k + 1];
      if n :| n >= 1 && Expires(v.line, n) && SilentTo(v.line, n) {
        SilentLater(v.line, n);
        assert Expires(u.line, n - 1) && SilentTo(u.line, n - 1);
      }
      if n :| !u.Up() && Expires(u.line, n) && SilentTo(u.line, n) {
        SilentLater(v.line, n + 1);
        assert Expires(v.line, n + 1) && SilentTo(v.line, n + 1);
      }
    }
  }

  lemma {:induction false} FirstMomentData(v: View, timeout: nat, n: nat)
    ensures DataAt(v, timeout, n) <==> LoopDataAfter(Passed(v), timeout, n)
    ensures DataAt(v, timeout, n) ==> AfterData(v, timeout, n) == LoopAfter(Passed(v), timeout, n)
  {
    var u := Passed(v);
    assert u.Up() <==> v.Up() || !SilentTo(v.line, 0);
    if v.line != [] {
      assert forall k :: 0 <= k < |u.line| ==> u.line[k] == v.line[k + 1];
      assert forall k :: Expires(u.line, k) <==> k >= 0 && Expires(v.line, k + 1);
      if n >= 1 {
        SilentLater(v.line, n - 1);
        if DataAt(v, timeout, n) && timeout != 0 {
          forall k | 0 <= k < n - 1
            ensures !Expires(u.line, k)
          {
            assert !Expires(v.line, k + 1);
          }
        }
        if LoopDataAfter(u, timeout, n) && timeout != 0 {
          forall k | 1 <= k < n
            ensures !Expires(v.line, k)
          {
            assert !Expires(u.line, k - 1);
          }
        }
      }
    }
  }

  /** How a wait ends, and what it leaves: with a timeout exactly if it runs out
      of time, with data exactly if it finds the flag up after some moment. */
  lemma {:induction false} WaitEndsIff(v: View, timeout: nat)
    ensures AwaitedEvent(v, timeout) == TIME_OUT <==> TimesOut(v, timeout)
    ensures AwaitedEvent(v, timeout) == TH_EVENT_DATA_RX <==> exists n: nat :: DataAt(v, timeout, n)
    ensures forall n: nat :: DataAt(v, timeout, n) ==> Awaited(v, timeout) == AfterData(v, timeout, n)
  {
    var u := Passed(v);
    FirstMoment(v, timeout);
    LoopTimeout(u, timeout);
    LoopData(u, timeout);
    forall n: nat
      ensures DataAt(v, timeout, n) <==> LoopDataAfter(u, timeout, n)
      ensures DataAt(v, timeout, n) ==> Awaited(v, timeout) == AfterData(v, timeout, n)
    {
      FirstMomentData(v, timeout, n);
      if DataAt(v, timeout, n) {
        LoopView(u, timeout, n);
      }
    }
  }

  /** A wait that found data leaves a TIME_OUT behind exactly if there was one,
      or its time was over at the very moment of the signal. */
  lemma {:induction false} TimeoutLeftOverIff(v: View, timeout: nat, n: nat)
    requires DataAt(v, timeout, n)
    ensures TIME_OUT in Awaited(v, timeout).flags <==>
            TIME_OUT in v.flags || (timeout != 0 && n >= 1 && Expires(v.line, n))
  {
    WaitEndsIff(v, timeout);
    ElapsedTimeout(v, n + 1);
  }

  lemma {:induction false} ElapsedTimeout(v: View, n: nat)
    ensures TIME_OUT in Elapsed(v, n).flags <==> TIME_OUT in v.flags
    decreases n
  {
    if n > 0 {
      ElapsedTimeout(Passed(v), n - 1);
    }
  }

  // ----- test and reset -----

  /** What test and reset do, step by step of the receiving thread: bytes that
      are left or come before the test keep the flag as it is, and otherwise it
      is down; the reset is late exactly if bytes are appended between the two
      and no signal is due then. */
  lemma {:induction false} TestedIff(v: View)
    ensures var w := Tested(v);
      var first, second := Now(v.line), Now(Rest(v.line));
      var empty := v.unread == [] && Added(first) == [];
      && (w.Up() <==> !empty && (v.Up() || Signal in first))
      && (w.late <==> v.late || (empty && Added(second) != [] && !DueAfter(DueAfter(v.due, first), second)))
      && w.unread == v.unread + Added(first) + (if empty then Added(second) else [])
      && w.line == (if empty then Rest(Rest(v.line)) else Rest(v.line))
  {
    Unit(v.unread + Added(Now(v.line)));
    Unit(Added(Now(Rest(v.line))));
  }

  // ----- whole reads -----

  /** What is in the buffer when it is read after the wait. */
  function There(v: View, timeout: nat, n: nat): seq<byte> {
    Passed(AfterData(v, timeout, n)).unread
  }

  /** The loop of Read_N fails: a wait runs out of time, this one or, when this
      one finds the flag up and too few bytes, a later one. */
  ghost predicate Fails(v: View, missing: nat, timeout: nat)
    decreases missing, |v.line|, v.Up(), 1
  {
    TimesOut(v, timeout) || exists n: nat :: FailsLater(v, missing, timeout, n)
  }

  ghost predicate FailsLater(v: View, missing: nat, timeout: nat, n: nat)
    decreases missing, |v.line|, v.Up(), 0
  {
    && DataAt(v, timeout, n)
    && var there := |There(v, timeout, n)|;
       there < missing && Fails(Drained(AfterData(v, timeout, n), there), missing - there, timeout)
  }

  /** All of Read_N fails: too few bytes are there at first, and the loop does. */
  ghost predicate ReadFails(v: View, count: nat, timeout: nat) {
    var there := |Passed(v).unread|;
    there < count && Fails(Drained(v, there), count - there, timeout)
  }

  /** The same for Read_Upto: a wait runs out of time before the terminator has
      come. */
  ghost predicate SeekFails(v: View, term: byte, timeout: nat)
    decreases |v.line|, v.Up()
  {
    || TimesOut(v, timeout)
    || exists n: nat ::
         && DataAt(v, timeout, n) && term !in There(v, timeout, n)
         && SeekFails(Drained(AfterData(v, timeout, n), |There(v, timeout, n)|), term, timeout)
  }

  ghost predicate UptoFails(v: View, term: byte, timeout: nat) {
    term !in Passed(v).unread && SeekFails(Drained(v, |Passed(v).unread|), term, timeout)
  }

  lemma {:induction false} SameMoment(v: View, timeout: nat, n: nat, m: nat)
    requires DataAt(v, timeout, n) && DataAt(v, timeout, m)
    ensures n == m
  {}

  lemma {:induction false} WaitingGoesOn(v: View, missing: nat, timeout: nat, n: nat)
    requires missing > 0 && DataAt(v, timeout, n)
    ensures var there := |There(v, timeout, n)|;
      Waiting(v, missing, timeout).outcome ==
      if there < missing then Waiting(Drained(AfterData(v, timeout, n), there), missing - there, timeout).outcome
      else Filled
  {
    WaitEndsIff(v, timeout);
    var w, event := Awaited(v, timeout), AwaitedEvent(v, timeout);
    assert w == AfterData(v, timeout, n) && event == TH_EVENT_DATA_RX;
    WaitingStep(v, missing, timeout, []);
  }

  lemma {:induction false} FailsGoesOn(v: View, missing: nat, timeout: nat, n: nat)
    requires DataAt(v, timeout, n)
    ensures var there := |There(v, timeout, n)|;
      Fails(v, missing, timeout) <==>
      there < missing && Fails(Drained(AfterData(v, timeout, n), there), missing - there, timeout)
  {
    NotBoth(v, timeout, n);
    forall m: nat | FailsLater(v, missing, timeout, m)
      ensures m == n
    {
      SameMoment(v, timeout, n, m);
    }
    assert Fails(v, missing, timeout) <==> FailsLater(v, missing, timeout, n);
  }

  lemma {:induction false} NotBoth(v: View, timeout: nat, n: nat)
    requires DataAt(v, timeout, n)
    ensures !TimesOut(v, timeout)
  {
    WaitEndsIff(v, timeout);
  }

  lemma {:induction false} FailsIff(v: View, missing: nat, timeout: nat)
    requires missing > 0
    ensures Waiting(v, missing, timeout).outcome == TimedOut <==> Fails(v, missing, timeout)
    decreases missing, |v.line|, v.Up()
  {
    WaitEndsIff(v, timeout);
    if n: nat :| DataAt(v, timeout, n) {
      var there := |There(v, timeout, n)|;
      WaitingGoesOn(v, missing, timeout, n);
      FailsGoesOn(v, missing, timeout, n);
      if there < missing {
        FailsIff(Drained(AfterData(v, timeout, n), there), missing - there, timeout);
      }
    } else {
      NoDataNoFilling(v, missing, timeout);
    }
  }

  lemma {:induction false} NoDataNoFilling(v: View, missing: nat, timeout: nat)
    requires missing > 0 && forall n: nat :: !DataAt(v, timeout, n)
    ensures Waiting(v, missing, timeout).outcome == TimedOut <==> TimesOut(v, timeout)
  {
    WaitEndsIff(v, timeout);
  }

  /** Exactly when a read of `count` bytes fails. */
  lemma {:induction false} ReadFailsIff(v: View, count: nat, timeout: nat)
    ensures Whole(v, count, timeout).outcome == TimedOut <==> ReadFails(v, count, timeout)
  {
    var there := |Passed(v).unread|;
    if there < count {
      FailsIff(Drained(v, there), count - there, timeout);
    }
  }

  lemma {:induction false} SeekFailsIff(v: View, term: byte, timeout: nat)
    ensures Seeking(v, term, timeout).outcome == TimedOut <==> SeekFails(v, term, timeout)
    decreases |v.line|, v.Up()
  {
    WaitEndsIff(v, timeout);
    var w, event := Awaited(v, timeout), AwaitedEvent(v, timeout);
    if event == TH_EVENT_DATA_RX {
      var n: nat :| DataAt(v, timeout, n);
      assert w == AfterData(v, timeout, n);
      assert forall m: nat :: DataAt(v, timeout, m) ==> m == n;
      if term !in There(v, timeout, n) {
        SeekFailsIff(Drained(w, |There(v, timeout, n)|), term, timeout);
      }
    }
  }

  /** Exactly when a read up to a terminator fails. */
  lemma {:induction false} UptoFailsIff(v: View, term: byte, timeout: nat)
    ensures Terminated(v, term, timeout).outcome == TimedOut <==> UptoFails(v, term, timeout)
  {
    if term !in Passed(v).unread {
      SeekFailsIff(Drained(v, |Passed(v).unread|), term, timeout);
    }
  }

  // ----- a silent line -----

  predicate Silent(line: seq<Moment>) {
    forall k :: 0 <= k < |line| ==> line[k].steps == []
  }

  lemma {:induction false} NothingPasses(v: View)
    requires Silent(v.line)
    ensures Passed(v) == v.(line := Rest(v.line)) && Silent(Rest(v.line))
  {
    Unit(v.unread);
  }

  /** On a silent line a read of more bytes than are there takes those, tests,
      resets and looks at the flag (moments 0 to 3), and then fails exactly if
      it has a time limit and the time is over at moment 4 or later; without
      either it never returns. */
  lemma {:induction false} SilentReadTimesOut(v: View, count: nat, timeout: nat)
    requires Silent(v.line) && |v.unread| < count && TIME_OUT !in v.flags
    ensures var r := Whole(v, count, timeout);
      && r.taken == v.unread
      && r.outcome == if timeout != 0 && exists n :: n >= 4 && Expires(v.line, n) then TimedOut else Stuck
  {
    var n := |v.unread|;
    var x := Drained(v, n);
    SilentDrain(v);
    SilentWait(x, timeout);
    SilentShift(v.line, x, timeout);
    Unit(v.unread);
    assert v.unread[..n] == v.unread;
    var r := Waiting(x, count - n, timeout);
    assert Whole(v, count, timeout) == Ahead(v.unread, r);
    assert r.taken == [] && r.outcome == if TimesOut(x, timeout) then TimedOut else Stuck;
  }

  /** The same for a read up to a terminator that has not come. */
  lemma {:induction false} SilentUptoTimesOut(v: View, term: byte, timeout: nat)
    requires Silent(v.line) && term !in v.unread && TIME_OUT !in v.flags
    ensures var r := Terminated(v, term, timeout);
      && r.taken == v.unread
      && r.outcome == if timeout != 0 && exists n :: n >= 4 && Expires(v.line, n) then TimedOut else Stuck
  {
    var n := |v.unread|;
    var x := Drained(v, n);
    SilentDrain(v);
    SilentWait(x, timeout);
    SilentShift(v.line, x, timeout);
    Unit(v.unread);
    assert v.unread[..n] == v.unread;
    var r := Seeking(x, term, timeout);
    assert Terminated(v, term, timeout) == Ahead(v.unread, r);
    assert r.taken == [] && r.outcome == if TimesOut(x, timeout) then TimedOut else Stuck;
  }

  lemma {:induction false} SilentShift(line: seq<Moment>, x: View, timeout: nat)
    requires Silent(line) && x.line == (if |line| >= 3 then line[3..] else []) && !x.Up() && TIME_OUT !in x.flags
    ensures TimesOut(x, timeout) <==> timeout != 0 && exists n :: n >= 4 && Expires(line, n)
  {
    if n :| n >= 1 && Expires(x.line, n) && SilentTo(x.line, n) {
      assert Expires(line, n + 3);
    }
    if n :| n >= 4 && Expires(line, n) {
      assert Expires(x.line, n - 3) && SilentTo(x.line, n - 3);
    }
  }

  lemma {:induction false} SilentDrain(v: View)
    requires Silent(v.line)
    ensures Passed(v).unread == v.unread
    ensures var x := Drained(v, |v.unread|);
      && x.unread == [] && !x.Up() && Silent(x.line) && (TIME_OUT in x.flags <==> TIME_OUT in v.flags)
      && x.line == if |v.line| >= 3 then v.line[3..] else []
  {
    NothingPasses(v);
    var w := Passed(v).(unread := []);
    NothingPasses(w);
    NothingPasses(Passed(w));
    assert v.unread[|v.unread|..] == [];
  }

  lemma {:induction false} SilentWait(x: View, timeout: nat)
    requires Silent(x.line) && !x.Up() && TIME_OUT !in x.flags
    ensures forall n: nat :: !DataAt(x, timeout, n)
    ensures AwaitedEvent(x, timeout) == if TimesOut(x, timeout) then TIME_OUT else TH_EVENT_NONE
  {
    WaitEndsIff(x, timeout);
    forall n: nat
      ensures !DataAt(x, timeout, n)
    {
      assert SilentTo(x.line, 0);
    }
  }
}
