/** The DATA_RX flag between the receiving thread and the reader, in single
    steps: the receiver appends and then signals; the reader drains, tests
    whether the buffer is empty and, if it was, resets the flag. */
module EventFlags {
  datatype Producer = Idle | Appended
  datatype Reader = Ready | Drained | SawEmpty

  datatype State = State(unread: nat, dataRx: bool, producer: Producer, reader: Reader)

  datatype Action =
    | Append(count: nat)
    | Signal
    | Drain(count: nat)
    | Test
    | Reset

  const INITIAL: State := State(0, false, Idle, Ready)

  predicate Enabled(a: Action, s: State) {
    match a
    case Append(n) => s.producer == Idle && n > 0
    case Signal => s.producer == Appended
    case Drain(n) => s.reader == Ready && n <= s.unread
    case Test => s.reader == Drained
    case Reset => s.reader == SawEmpty
  }

  function Perform(a: Action, s: State): State
    requires Enabled(a, s)
  {
    match a
    case Append(n) => s.(unread := s.unread + n, producer := Appended)
    case Signal => s.(dataRx := true, producer := Idle)
    case Drain(n) => s.(unread := s.unread - n, reader := Drained)
    case Test => s.(reader := if s.unread == 0 then SawEmpty else Ready)
    case Reset => s.(dataRx := false, reader := Ready)
  }

  ghost predicate Possible(s: State, run: seq<Action>)
    decreases run
  {
    run != [] ==> Enabled(run[0], s) && Possible(Perform(run[0], s), run[1..])
  }

  function After(s: State, run: seq<Action>): State
    requires Possible(s, run)
    decreases run
  {
    if run == [] then s else After(Perform(run[0], s), run[1..])
  }

  /** A reader about to wait will be woken for the bytes that are there. */
  predicate Announced(s: State) {
    s.unread > 0 ==> s.dataRx || s.producer == Appended
  }

  /** At every moment of the run. */
  ghost predicate AlwaysAnnounced(s: State, run: seq<Action>)
    requires Possible(s, run)
    decreases run
  {
    Announced(s) && (run != [] ==> AlwaysAnnounced(Perform(run[0], s), run[1..]))
  }

  // ----- when a wake-up is lost -----

  /** What an observer of the actions alone keeps: whether bytes have been
      appended since the last emptiness test, and whether a signal is due. */
  datatype Watch = Watch(appended: bool, due: bool)

  const NOTHING_YET: Watch := Watch(false, false)

  function Observe(w: Watch, a: Action): Watch {
    match a
    case Append(_) => Watch(true, true)
    case Signal => w.(due := false)
    case Test => w.(appended := false)
    case _ => w
  }

  /** No reset comes after bytes that were appended since the test and have
      been signalled already, with no signal due. */
  predicate NoLateReset(w: Watch, run: seq<Action>)
    decreases run
  {
    run != [] ==>
      && (run[0].Reset? && w.appended ==> w.due)
      && NoLateReset(Observe(w, run[0]), run[1..])
  }

  /** What the observer knows is true of the state. */
  predicate Tied(w: Watch, s: State) {
    && (w.due <==> s.producer == Appended)
    && (s.reader == SawEmpty ==> (w.appended <==> s.unread > 0))
  }

  /** The order of the actions decides: the wake-up is never lost if and only
      if no reset is late. */
  lemma {:induction false} LostExactlyByLateResets(w: Watch, s: State, run: seq<Action>)
    requires Tied(w, s) && Announced(s) && Possible(s, run)
    ensures AlwaysAnnounced(s, run) <==> NoLateReset(w, run)
    decreases run
  {
    if run != [] {
      var s' := Perform(run[0], s);
      if Announced(s') {
        LostExactlyByLateResets(Observe(w, run[0]), s', run[1..]);
      }
    }
  }

  /** No signal falls between the reader's emptiness test and its reset. */
  ghost predicate TestAndResetTogether(s: State, run: seq<Action>)
    requires Possible(s, run)
    decreases run
  {
    run != [] ==>
      && (run[0].Signal? ==> s.reader != SawEmpty)
      && TestAndResetTogether(Perform(run[0], s), run[1..])
  }

  lemma {:induction false} TogetherMeansTimely(w: Watch, s: State, run: seq<Action>)
    requires Tied(w, s) && (s.reader == SawEmpty && w.appended ==> w.due)
    requires Possible(s, run) && TestAndResetTogether(s, run)
    ensures NoLateReset(w, run)
    decreases run
  {
    if run != [] {
      TogetherMeansTimely(Observe(w, run[0]), Perform(run[0], s), run[1..]);
    }
  }

  /** The invariant, with drain, test and reset taken together: in every run,
      at every moment, unread bytes imply that DATA_RX is set or about to be. */
  lemma {:induction false} UnreadIsAnnounced(run: seq<Action>)
    requires Possible(INITIAL, run) && TestAndResetTogether(INITIAL, run)
    ensures AlwaysAnnounced(INITIAL, run)
  {
    TogetherMeansTimely(NOTHING_YET, INITIAL, run);
    LostExactlyByLateResets(NOTHING_YET, INITIAL, run);
  }

  lemma {:induction false} PossibleStep(s: State, a: Action, rest: seq<Action>)
    requires Enabled(a, s) && Possible(Perform(a, s), rest)
    ensures Possible(s, [a] + rest) && After(s, [a] + rest) == After(Perform(a, s), rest)
  {
    assert ([a] + rest)[1..] == rest;
  }

  /** From every state in which the reader has seen an empty buffer and is about
      to reset the flag: bytes that arrive and are signalled now lie in the
      buffer afterwards with the flag down and nobody about to raise it. */
  lemma {:induction false} LateSignalIsLost(s: State, n: nat) returns (run: seq<Action>)
    requires s.reader == SawEmpty && s.producer == Idle && n > 0
    ensures Possible(s, run) && After(s, run) == State(s.unread + n, false, Idle, Ready)
  {
    var s1 := Perform(Append(n), s);
    var s2 := Perform(Signal, s1);
    run := [];
    PossibleStep(s2, Reset, run);
    run := [Reset] + run;
    PossibleStep(s1, Signal, run);
    run := [Signal] + run;
    PossibleStep(s, Append(n), run);
    run := [Append(n)] + run;
  }

  /** The source can get there from every state with no signal due: a read that
      takes all there is, or finds nothing, is enough. */
  lemma {:induction false} LostWakeUp(s: State, n: nat) returns (run: seq<Action>)
    requires s.reader == Ready && s.producer == Idle && n > 0
    ensures Possible(s, run) && After(s, run) == State(n, false, Idle, Ready)
  {
    var read, test := Drain(s.unread), Test;
    var s1 := Perform(read, s);
    var s2 := Perform(test, s1);
    run := LateSignalIsLost(s2, n);
    PossibleStep(s1, test, run);
    run := [test] + run;
    PossibleStep(s, read, run);
    run := [read] + run;
  }
}
