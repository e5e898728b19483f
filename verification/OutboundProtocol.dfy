/** The protocol between the threads that frame output and the thread that
    writes it to the socket, while a client stays connected: a mutex-protected
    byte FIFO and a counting semaphore. Every critical section, semaphore
    operation and socket write is one step; threads interleave arbitrarily. */
module OutboundProtocol {
  import opened Bytes

  /** A framing thread: outside, or between its Write and its sem_post. */
  datatype Producer = Idle | Written

  /** The writer thread: at sem_wait, between that and the drain, or sending. */
  datatype Writer = Waiting | Woken | Sending

  datatype State = State(
    producers: seq<Producer>,
    dataOut: seq<byte>,  // the FIFO
    semaphore: nat,
    writer: Writer,
    unsent: seq<byte>,   // the part of the writer's vector it has not sent yet
    sent: seq<byte>,     // everything given to the socket
    framed: seq<byte>,   // everything ever written to the FIFO
    writes: nat,         // how many frames that were
    waits: nat           // how many times the writer has passed sem_wait
  )

  datatype Action =
    | Write(thread: nat, frame: seq<byte>)
    | Post(thread: nat)
    | Wait
    | Drain
    | SendByte
    | LoopEnd

  /** The semaphore is created with 1 and taken once during initialisation. */
  function Initial(threads: nat): State {
    State(seq(threads, i => Idle), [], 0, Waiting, [], [], [], 0, 0)
  }

  predicate Enabled(a: Action, s: State) {
    match a
    case Write(i, _) => i < |s.producers| && s.producers[i] == Idle
    case Post(i) => i < |s.producers| && s.producers[i] == Written
    case Wait => s.writer == Waiting && s.semaphore > 0
    case Drain => s.writer == Woken
    case SendByte => s.writer == Sending && s.unsent != []
    case LoopEnd => s.writer == Sending && s.unsent == []
  }

  function Perform(a: Action, s: State): State
    requires Enabled(a, s)
  {
    match a
    case Write(i, frame) =>
      s.(producers := s.producers[i := Written], dataOut := s.dataOut + frame,
         framed := s.framed + frame, writes := s.writes + 1)
    case Post(i) => s.(producers := s.producers[i := Idle], semaphore := s.semaphore + 1)
    case Wait => s.(semaphore := s.semaphore - 1, writer := Woken, waits := s.waits + 1)
    case Drain => s.(writer := Sending, unsent := s.dataOut, dataOut := [])
    case SendByte => s.(sent := s.sent + [s.unsent[0]], unsent := s.unsent[1..])
    case LoopEnd => s.(writer := Waiting)
  }

  /** The actions `run` lead from s to t. */
  ghost predicate Leads(s: State, run: seq<Action>, t: State)
    decreases run
  {
    if run == [] then s == t
    else Enabled(run[0], s) && Leads(Perform(run[0], s), run[1..], t)
  }

  /** How many producers are between Write and post. */
  function Pending(ps: seq<Producer>): nat {
    if ps == [] then 0 else (if ps[0] == Written then 1 else 0) + Pending(ps[1..])
  }

  lemma {:induction false} PendingUpdate(ps: seq<Producer>, i: nat, p: Producer)
    requires i < |ps| && ps[i] != p
    ensures Pending(ps[i := p]) == if p == Written then Pending(ps) + 1 else Pending(ps) - 1
  {
    if i == 0 {
      assert ps[i := p][1..] == ps[1..];
    } else {
      assert ps[i := p][1..] == ps[1..][i - 1 := p];
      PendingUpdate(ps[1..], i - 1, p);
    }
  }

  lemma {:induction false} PendingNone(ps: seq<Producer>)
    ensures Pending(ps) == 0 <==> forall p <- ps :: p == Idle
  {
    if ps != [] {
      PendingNone(ps[1..]);
      assert ps[0] in ps;
      assert forall p :: p in ps <==> p == ps[0] || p in ps[1..];
    }
  }

  ghost predicate Invariant(s: State) {
    // nothing lost, duplicated or reordered
    && s.framed == s.sent + s.unsent + s.dataOut
    && (s.writer != Sending ==> s.unsent == [])
    // every write is matched by a semaphore unit, a wait or a post to come
    && s.writes == s.semaphore + s.waits + Pending(s.producers)
    // nothing is stranded
    && (s.dataOut != [] ==> s.semaphore > 0 || Pending(s.producers) > 0 || s.writer == Woken)
  }

  lemma {:induction false} InitialInvariant(threads: nat)
    ensures Invariant(Initial(threads))
  {
    var ps := Initial(threads).producers;
    assert forall i :: 0 <= i < |ps| ==> ps[i] == Idle;
    assert forall p <- ps :: p == Idle;
    PendingNone(ps);
  }

  lemma {:induction false} StepKeepsInvariant(a: Action, s: State)
    requires Invariant(s) && Enabled(a, s)
    ensures Invariant(Perform(a, s))
  {
    match a
    case Write(i, frame) =>
      PendingUpdate(s.producers, i, Written);
      Assoc(s.sent + s.unsent, s.dataOut, frame);
    case Post(i) =>
      PendingUpdate(s.producers, i, Idle);
    case SendByte =>
      DropStep(s.unsent, 0);
      Assoc(s.sent, [s.unsent[0]], s.unsent[1..]);
    case Drain =>
      Unit(s.sent);
      Unit(s.sent + s.dataOut);
    case _ =>
  }

  lemma {:induction false} RunKeepsInvariant(s: State, run: seq<Action>, t: State)
    requires Invariant(s) && Leads(s, run, t)
    ensures Invariant(t)
    decreases run
  {
    if run != [] {
      StepKeepsInvariant(run[0], s);
      RunKeepsInvariant(Perform(run[0], s), run[1..], t);
    }
  }

  /** The bytes written to the FIFO along a run, in the order of the writes. */
  function AllWritten(run: seq<Action>): seq<byte> {
    if run == [] then [] else (if run[0].Write? then run[0].frame else []) + AllWritten(run[1..])
  }

  lemma {:induction false} FramedIsWritten(s: State, run: seq<Action>, t: State)
    requires Leads(s, run, t)
    ensures t.framed == s.framed + AllWritten(run)
    decreases run
  {
    if run == [] {
      Unit(s.framed);
    } else {
      var s' := Perform(run[0], s);
      FramedIsWritten(s', run[1..], t);
      if run[0].Write? {
        Assoc(s.framed, run[0].frame, AllWritten(run[1..]));
      } else {
        Unit(AllWritten(run[1..]));
      }
    }
  }

  /** In every run, at every moment: what the socket has been given, then what
      the writer holds, then what is queued, is everything framed so far, in
      the order of the writes. */
  lemma {:induction false} ExactlyOnceInOrder(threads: nat, run: seq<Action>, t: State)
    requires Leads(Initial(threads), run, t)
    ensures t.sent + t.unsent + t.dataOut == AllWritten(run)
  {
    InitialInvariant(threads);
    RunKeepsInvariant(Initial(threads), run, t);
    FramedIsWritten(Initial(threads), run, t);
    Unit(AllWritten(run));
  }

  /** The writer can go no further and no producer owes it a post. */
  ghost predicate Quiet(s: State) {
    s.writer == Waiting && s.semaphore == 0 && forall p <- s.producers :: p == Idle
  }

  /** No stranded output: whenever a run leaves the writer blocked and the
      producers idle, everything ever framed has been sent. */
  lemma {:induction false} BlockedMeansSent(threads: nat, run: seq<Action>, t: State)
    requires Leads(Initial(threads), run, t) && Quiet(t)
    ensures t.sent == AllWritten(run)
  {
    InitialInvariant(threads);
    RunKeepsInvariant(Initial(threads), run, t);
    PendingNone(t.producers);
    FramedIsWritten(Initial(threads), run, t);
    Unit(AllWritten(run));
    Unit(t.sent);
  }

  // ----- the writer gets there -----

  predicate ByWriter(a: Action) {
    a.Wait? || a.Drain? || a.SendByte? || a.LoopEnd?
  }

  /** What the writer still has to do if nothing more is written. */
  function WorkLeft(s: State): nat {
    3 * s.semaphore + |s.unsent| + |s.dataOut| + match s.writer case Waiting => 0 case Woken => 2 case Sending => 1
  }

  /** From any reachable state with idle producers the writer alone can take
      only so many steps, and as long as it is not blocked it can take one; when
      it can take none, everything has been sent. */
  lemma {:induction false} WriterFinishes(s: State, run: seq<Action>, t: State)
    requires Invariant(s) && Leads(s, run, t)
    requires forall p <- s.producers :: p == Idle
    requires forall a <- run :: ByWriter(a)
    ensures |run| + WorkLeft(t) == WorkLeft(s)
    ensures (forall a :: ByWriter(a) ==> !Enabled(a, t)) <==> Quiet(t)
    ensures Quiet(t) ==> t.sent == s.framed
    decreases run
  {
    if run == [] {
      PendingNone(s.producers);
      Unit(s.sent);
      if !Quiet(s) {
        assert Enabled(Wait, s) || Enabled(Drain, s) || Enabled(SendByte, s) || Enabled(LoopEnd, s);
      }
    } else {
      var s' := Perform(run[0], s);
      assert ByWriter(run[0]);
      StepKeepsInvariant(run[0], s);
      WriterFinishes(s', run[1..], t);
    }
  }
}
