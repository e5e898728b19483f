/** `CSerialCommHelper`: blocking reads with timeouts on top of the serial
    buffer, driven by a word of event flags, with time to pass before every step
    of the reader. */
module SerialComm {
  import opened Bytes
  import opened SerialBuffers
  import opened SerialViews
  import opened SerialReads
  import opened SerialTimeouts

  const MAX_BUFF_SIZE: nat := 200

  datatype SerialState = Unknown | UnInit | Init | Started | Stopped

  /** `NoData` is the E_FAIL of a timeout; `Blocked` is a call that has not
      returned when nothing more is going to happen. */
  datatype ReadResult = Success(data: seq<byte>) | NoData | NotStarted | Blocked

  /** The lowest of some events, tried in turn. */
  method Lowest(pending: Events) returns (event: nat)
    requires pending != {} && pending <= ALL_EVENTS
    ensures event in pending && forall e <- pending :: event <= e
  {
    ghost var some :| some in pending;
    event := 1;
    while event < TH_EVENT_MAX
      invariant event in ALL_EVENTS + {TH_EVENT_MAX}
      invariant forall e <- pending :: event <= e
      decreases TH_EVENT_MAX - event
    {
      if event in pending {
        return;
      }
      event := event * 2;
    }
    assert false;
  }

  class SerialHelper {
    var state: SerialState
    const buffer: SerialBuffer
    var eventFlag: Events
    var line: seq<Moment>
    ghost var due: bool
    ghost var late: bool

    ghost function Seen(): View
      requires buffer.Valid()
      reads this, buffer
    {
      View(buffer.Unread(), eventFlag, line, due, late)
    }

    ghost predicate Valid()
      reads this, buffer
    {
      buffer.Valid() && Seen().Coherent()
    }

    ghost function Stream(): seq<byte>
      requires Valid()
      reads this, buffer
    {
      Seen().Stream()
    }

    ghost predicate Punctual()
      reads this
    {
      NoExpiry(line) && TIME_OUT !in eventFlag
    }

    constructor (line: seq<Moment>)
      requires AllInTurn(false, line)
      ensures Valid() && fresh(buffer) && state == UnInit && Stream() == Future(line) && !late
      ensures buffer.Stale() == []
      ensures NoExpiry(line) ==> Punctual()
    {
      var b := new SerialBuffer();
      buffer := b;
      state, eventFlag, this.line, due, late := UnInit, {}, line, false, false;
      new;
      Unit(Future(line));
    }

    method Start()
      requires Valid()
      modifies this`state
      ensures state == Started
    {
      state := Started;
    }

    method SendSignal(event: nat)
      modifies this`eventFlag
      ensures eventFlag == old(eventFlag) + {event}
    {
      eventFlag := eventFlag + {event};
    }

    method ResetSignal(event: nat)
      modifies this`eventFlag
      ensures eventFlag == old(eventFlag) - {event}
    {
      eventFlag := eventFlag - {event};
    }

    // ----- the receiving thread -----

    /** Reads the port in pieces of at most 200 bytes until it is dry; from then
        on the signal is due. */
    method Receive(chunk: seq<byte>)
      requires buffer.Valid()
      modifies this`due, buffer
      ensures buffer.Valid() && buffer.Unread() == old(buffer.Unread()) + chunk && due
      ensures buffer.Stale() == old(buffer.Stale())
    {
      var accum := 0;
      Unit(buffer.Unread());
      while accum < |chunk|
        invariant 0 <= accum <= |chunk|
        invariant buffer.Valid() && buffer.Unread() == old(buffer.Unread()) + chunk[..accum]
        invariant buffer.Stale() == old(buffer.Stale())
      {
        var end := if accum + MAX_BUFF_SIZE < |chunk| then accum + MAX_BUFF_SIZE else |chunk|;
        buffer.AddData(chunk[accum..end]);
        TakeSplit(chunk, accum, end);
        Assoc(old(buffer.Unread()), chunk[..accum], chunk[accum..end]);
        accum := end;
      }
      assert chunk[..accum] == chunk;
      due := true;
    }

    /** Some steps of the thread. */
    method Act(steps: seq<Step>)
      requires buffer.Valid()
      modifies this`eventFlag, this`due, buffer
      ensures buffer.Valid() && due == DueAfter(old(due), steps)
      ensures buffer.Unread() == old(buffer.Unread()) + Added(steps) && buffer.Stale() == old(buffer.Stale())
      ensures eventFlag == if Signal in steps then old(eventFlag) + {TH_EVENT_DATA_RX} else old(eventFlag)
      decreases |steps|
    {
      Unit(buffer.Unread());
      if steps != [] {
        ghost var u := buffer.Unread();
        match steps[0] {
          case Append(chunk) =>
            Receive(chunk);
            Assoc(u, chunk, Added(steps[1..]));
          case Signal =>
            SendSignal(TH_EVENT_DATA_RX);
            due := false;
            Unit(Added(steps[1..]));
        }
        assert steps == [steps[0]] + steps[1..];
        Act(steps[1..]);
      }
    }

    /** Lets a moment pass, between two steps of the reader. */
    method Environment() returns (expired: bool)
      requires buffer.Valid()
      modifies this`eventFlag, this`line, this`due, buffer
      ensures buffer.Valid() && Seen() == Passed(old(Seen())) && buffer.Stale() == old(buffer.Stale())
      ensures expired <==> old(line) != [] && old(line[0]).expired
    {
      expired := false;
      Unit(buffer.Unread());
      if line != [] {
        var moment := line[0];
        line := line[1..];
        expired := moment.expired;
        Act(moment.steps);
      }
    }

    // ----- waiting -----

    /** The waiting loop. */
    method WaitUntil(mask: Events, timed: bool) returns (stuck: bool)
      requires buffer.Valid()
      modifies this`eventFlag, this`line, this`due, buffer
      ensures buffer.Valid() && Seen() == Waited(old(Seen()), mask, timed) && buffer.Stale() == old(buffer.Stale())
      ensures stuck <==> eventFlag * mask == {}
    {
      stuck := false;
      while eventFlag * mask == {}
        invariant buffer.Valid() && Waited(Seen(), mask, timed) == Waited(old(Seen()), mask, timed)
        invariant buffer.Stale() == old(buffer.Stale())
        decreases |line|
      {
        if line == [] {
          return true;
        }
        var expired := Environment();
        if timed && expired {
          eventFlag := eventFlag + {TIME_OUT};
        }
      }
    }

    /** Waits until one of the events is set, or the time is over, and returns
        the lowest one that is; TH_EVENT_NONE if that never happens. (Flags are
        only ever added meanwhile, so that the bits can be tried in one step.) */
    method WaitForSignal(events: Events, waittime: nat) returns (event: nat)
      requires buffer.Valid() && events <= ALL_EVENTS
      modifies this`eventFlag, this`line, this`due, buffer
      ensures buffer.Valid() && buffer.Stale() == old(buffer.Stale())
      ensures Seen() == Waited(Passed(old(Seen())), Mask(events, waittime), waittime != 0)
      ensures var mask := Mask(events, waittime);
        if event == TH_EVENT_NONE then eventFlag * mask == {}
        else event in eventFlag * mask && forall e <- eventFlag * mask :: event <= e
    {
      var mask := Mask(events, waittime);
      var _ := Environment();
      var stuck := WaitUntil(mask, waittime != 0);
      if stuck {
        return TH_EVENT_NONE;
      }
      event := Lowest(eventFlag * mask);
    }

    /** The wait of the blocking reads: for data or the end of the time. */
    method AwaitData(timeout: nat) returns (event: nat)
      requires buffer.Valid()
      modifies this`eventFlag, this`line, this`due, buffer
      ensures buffer.Valid() && buffer.Stale() == old(buffer.Stale())
      ensures Seen() == Awaited(old(Seen()), timeout) && event == AwaitedEvent(old(Seen()), timeout)
    {
      event := WaitForSignal({TH_EVENT_DATA_RX}, timeout);
      ghost var w := Seen();
      EndingIsLowest(w, timeout, event);
      if event == TIME_OUT {
        ResetSignal(TIME_OUT);
        assert Seen() == w.(flags := w.flags - {TIME_OUT});
      }
    }

    // ----- reading -----

    /** What follows every read of the buffer. */
    method ResetIfEmpty()
      requires buffer.Valid()
      modifies this`eventFlag, this`line, this`due, this`late, buffer
      ensures buffer.Valid() && Seen() == Tested(old(Seen()))
      ensures buffer.Stale() == old(buffer.Stale())
    {
      var _ := Environment();
      if buffer.IsEmpty() {
        var _ := Environment();
        ResetDataFlag();
      }
    }

    method ResetDataFlag()
      requires buffer.Valid()
      modifies this`eventFlag, this`late
      ensures Seen() == Reset(old(Seen()))
    {
      late := late || (buffer.Unread() != [] && !due);
      ResetSignal(TH_EVENT_DATA_RX);
    }

    /** Consumes up to `count` bytes of what has arrived. */
    method Drain(data: seq<byte>, count: nat) returns (data': seq<byte>, n: nat)
      requires buffer.Valid()
      modifies this`eventFlag, this`line, this`due, this`late, buffer
      ensures var there := Passed(old(Seen())).unread;
        && n == Least(count, |there|)
        && data' == data + there[..n] && buffer.Valid() && Seen() == Drained(old(Seen()), n)
    {
      var _ := Environment();
      data', n := buffer.ReadN(data, count);
      ResetIfEmpty();
    }

    /** Consumes what has arrived up to the first terminator. */
    method DrainUpto(data: seq<byte>, term: byte) returns (data': seq<byte>, found: bool)
      requires buffer.Valid()
      modifies this`eventFlag, this`line, this`due, this`late, buffer
      ensures var there := Passed(old(Seen())).unread;
        && (found <==> term in there)
        && var n := Reach(there, term);
           data' == data + there[..n] && buffer.Valid() && Seen() == Drained(old(Seen()), n)
    {
      var _ := Environment();
      data', found := buffer.ReadUpto(data, term);
      ResetIfEmpty();
    }

    /** Reads exactly `count` bytes, however they come in. `taken` are the
        bytes removed from the stream by the call. It fails exactly when one of
        its waits runs out of time, as ReadFails says of the moments. A TIME_OUT
        left over from an earlier wait makes a timed call fail as soon as it finds
        the flag down; when no time runs out, that is the only way for it to fail.
        A call that never returns has found the flag down for good: unless a reset
        was late, nothing is left then. */
    method ReadN(count: nat, timeout: nat) returns (r: ReadResult, ghost taken: seq<byte>)
      requires Valid() && state == Started
      modifies this`eventFlag, this`line, this`due, this`late, buffer
      ensures Valid() && (old(late) ==> late) && old(Stream()) == taken + Stream()
      ensures r.Success? || r.NoData? || r.Blocked?
      ensures r.Success? ==> r.data == taken && |taken| == count
      ensures r.NoData? ==> timeout != 0 && |taken| < count && Unnoticed(Seen()) && TIME_OUT !in eventFlag
      ensures r.NoData? <==> ReadFails(old(Seen()), count, timeout)
      ensures r.Blocked? ==> |taken| < count && OutOfSight(Seen())
      ensures old(Punctual()) ==> Punctual() && !r.NoData?
      ensures old(Punctual()) && !late ==> (r.Success? <==> |old(Stream())| >= count)
      ensures |line| <= |old(line)| && (old(line) != [] ==> |line| < |old(line)|)
      ensures timeout != 0 && TIME_OUT in old(eventFlag) ==>
        if Starved(old(Seen()), count) then r.NoData? else r.Success?
      ensures old(NoExpiry(line)) ==>
        (r.NoData? <==> timeout != 0 && TIME_OUT in old(eventFlag) && Starved(old(Seen()), count))
    {
      ghost var v := Seen();
      WholeKeeps(v, count, timeout);
      WholeTakes(v, count, timeout);
      ReadFailsIff(v, count, timeout);
      if timeout != 0 && TIME_OUT in eventFlag {
        FailsIfStarved(v, count, timeout);
      }
      r, taken := ReadWhole(count, timeout);
    }

    /** The call itself. */
    method ReadWhole(count: nat, timeout: nat) returns (r: ReadResult, ghost taken: seq<byte>)
      requires buffer.Valid()
      modifies this`eventFlag, this`line, this`due, this`late, buffer
      ensures buffer.Valid() && Gives(Whole(old(Seen()), count, timeout), r, taken)
    {
      ghost var v := Seen();
      ghost var there, whole := Passed(v).unread, Whole(v, count, timeout);
      var szTmp, local := Drain([], count);
      Unit(there[..local]);
      if local == count {
        return Success(szTmp), szTmp;
      }
      assert whole == Ahead(szTmp, Waiting(Seen(), count - local, timeout));
      r, taken := ReadRest(szTmp, count - local, timeout);
    }

    /** Its loop, with `start` taken before. */
    method ReadRest(start: seq<byte>, missing: nat, timeout: nat) returns (r: ReadResult, ghost taken: seq<byte>)
      requires buffer.Valid() && missing > 0
      modifies this`eventFlag, this`line, this`due, this`late, buffer
      ensures buffer.Valid() && Gives(Ahead(start, Waiting(old(Seen()), missing, timeout)), r, taken)
    {
      ghost var whole := Ahead(start, Waiting(Seen(), missing, timeout));
      var szTmp, remaining := start, missing;
      while true
        invariant buffer.Valid() && remaining > 0 && whole == Ahead(szTmp, Waiting(Seen(), remaining, timeout))
        decreases remaining, |line|, TH_EVENT_DATA_RX in eventFlag
      {
        WaitingStep(Seen(), remaining, timeout, szTmp);
        var event := AwaitData(timeout);
        if event == TH_EVENT_NONE {
          return Blocked, szTmp;
        }
        if event == TIME_OUT {
          return NoData, szTmp;
        }
        var read;
        szTmp, read := Drain(szTmp, remaining);
        remaining := remaining - read;
        if remaining == 0 {
          return Success(szTmp), szTmp;
        }
      }
    }

    /** A reading as the result of a call. */
    ghost predicate Gives(reading: Reading, r: ReadResult, taken: seq<byte>)
      requires buffer.Valid()
      reads this, buffer
    {
      && taken == reading.taken && Seen() == reading.view
      && match reading.outcome
         case Filled => r == Success(taken)
         case TimedOut => r == NoData
         case Stuck => r == Blocked
    }

    /** Reads up to and including the first terminator, however the bytes come
        in. */
    method ReadUpto(term: byte, timeout: nat) returns (r: ReadResult, ghost taken: seq<byte>)
      requires Valid()
      modifies this`eventFlag, this`line, this`due, this`late, buffer
      ensures Valid() && (old(late) ==> late) && old(Stream()) == taken + Stream()
      ensures r.NotStarted? <==> state != Started
      ensures r.NotStarted? ==> taken == []
      ensures r.Success? ==> r.data == taken && EndsWithFirst(taken, term)
      ensures r.NoData? ==> timeout != 0 && term !in taken && Unnoticed(Seen()) && TIME_OUT !in eventFlag
      ensures r.NoData? <==> state == Started && UptoFails(old(Seen()), term, timeout)
      ensures r.Blocked? ==> term !in taken && OutOfSight(Seen())
      ensures old(Punctual()) ==> Punctual() && !r.NoData?
      ensures old(Punctual()) && !late && state == Started ==> (r.Success? <==> term in old(Stream()))
    {
      ghost var v := Seen();
      if state != Started {
        FollowsItself(v);
        return NotStarted, [];
      }
      TerminatedKeeps(v, term, timeout);
      UptoFailsIff(v, term, timeout);
      r, taken := ReadTerminated(term, timeout);
    }

    method ReadTerminated(term: byte, timeout: nat) returns (r: ReadResult, ghost taken: seq<byte>)
      requires buffer.Valid()
      modifies this`eventFlag, this`line, this`due, this`late, buffer
      ensures buffer.Valid() && Gives(Terminated(old(Seen()), term, timeout), r, taken)
    {
      ghost var there := Passed(Seen()).unread;
      var szTmp, found := DrainUpto([], term);
      Unit(there[..Reach(there, term)]);
      if found {
        return Success(szTmp), szTmp;
      }
      r, taken := SeekRest(szTmp, term, timeout);
    }

    method SeekRest(start: seq<byte>, term: byte, timeout: nat) returns (r: ReadResult, ghost taken: seq<byte>)
      requires buffer.Valid()
      modifies this`eventFlag, this`line, this`due, this`late, buffer
      ensures buffer.Valid() && Gives(Ahead(start, Seeking(old(Seen()), term, timeout)), r, taken)
    {
      ghost var whole := Ahead(start, Seeking(Seen(), term, timeout));
      var szTmp := start;
      while true
        invariant buffer.Valid() && whole == Ahead(szTmp, Seeking(Seen(), term, timeout))
        decreases |line|, TH_EVENT_DATA_RX in eventFlag
      {
        SeekingStep(Seen(), term, timeout, szTmp);
        var event := AwaitData(timeout);
        if event == TH_EVENT_NONE {
          return Blocked, szTmp;
        }
        if event == TIME_OUT {
          return NoData, szTmp;
        }
        var found;
        szTmp, found := DrainUpto(szTmp, term);
        if found {
          return Success(szTmp), szTmp;
        }
      }
    }

    /** Takes what has arrived, without waiting; the string of the buffer is
        returned whole, bytes consumed before included. */
    method ReadAvailable() returns (r: ReadResult, ghost taken: seq<byte>)
      requires Valid()
      modifies this`eventFlag, this`line, this`due, this`late, buffer
      ensures Valid() && (old(late) ==> late) && old(Stream()) == taken + Stream()
      ensures state != Started ==> r == NotStarted && taken == []
      ensures state == Started ==> r == Success(old(buffer.Stale()) + taken) && buffer.Stale() == []
    {
      ghost var v := Seen();
      FollowsItself(v);
      if state != Started {
        return NotStarted, [];
      }
      taken := Passed(v).unread;
      DrainedKeeps(v, |taken|);
      TakenWhole(v, taken);
      var szTemp := DrainAll();
      r := Success(szTemp);
    }

    method DrainAll() returns (data: seq<byte>)
      requires buffer.Valid()
      modifies this`eventFlag, this`line, this`due, this`late, buffer
      ensures data == old(buffer.Stale()) + Passed(old(Seen())).unread
      ensures buffer.Valid() && buffer.Stale() == [] && Seen() == Tested(Passed(old(Seen())).(unread := []))
    {
      var _ := Environment();
      var some;
      data, some := buffer.ReadAvailable([]);
      Unit(old(buffer.Stale()) + Passed(old(Seen())).unread);
      ResetIfEmpty();
    }
  }

  lemma {:induction false} TakeSplit(s: seq<byte>, i: nat, j: nat)
    requires i <= j <= |s|
    ensures s[..j] == s[..i] + s[i..j]
  {}

  // ----- whole sessions -----

  datatype Call = CallN(count: nat, timeout: nat) | CallUpto(term: byte, timeout: nat)

  /** What the caller of a blocking read may conclude from its result and from
      the bytes the call took. */
  ghost predicate Fulfils(call: Call, r: ReadResult, part: seq<byte>) {
    && !r.NotStarted?
    && (r.Success? ==> r.data == part)
    && match call
       case CallN(count, timeout) =>
         if r.Success? then |part| == count else |part| < count && (r.NoData? ==> timeout != 0)
       case CallUpto(term, timeout) =>
         if r.Success? then EndsWithFirst(part, term) else term !in part && (r.NoData? ==> timeout != 0)
  }

  function Flatten(parts: seq<seq<byte>>): seq<byte> {
    if parts == [] then [] else Flatten(parts[..|parts| - 1]) + parts[|parts| - 1]
  }

  lemma {:induction false} FlattenAdd(parts: seq<seq<byte>>, part: seq<byte>)
    ensures Flatten(parts + [part]) == Flatten(parts) + part
  {
    assert (parts + [part])[..|parts|] == parts;
  }

  /** Every call so far, its result and the bytes it took. */
  ghost predicate Answered(calls: seq<Call>, results: seq<ReadResult>, parts: seq<seq<byte>>) {
    && |parts| == |results| <= |calls|
    && forall i :: 0 <= i < |results| ==> Fulfils(calls[i], results[i], parts[i])
  }

  lemma {:induction false} AnsweredOn(calls: seq<Call>, results: seq<ReadResult>, parts: seq<seq<byte>>,
                                      r: ReadResult, part: seq<byte>)
    requires Answered(calls, results, parts) && |results| < |calls| && Fulfils(calls[|results|], r, part)
    ensures Answered(calls, results + [r], parts + [part])
  {}

  method Answer(h: SerialHelper, call: Call) returns (r: ReadResult, ghost taken: seq<byte>)
    requires h.Valid() && h.state == Started
    modifies h`eventFlag, h`line, h`due, h`late, h.buffer
    ensures h.Valid() && old(h.Stream()) == taken + h.Stream()
    ensures Fulfils(call, r, taken) && (old(h.late) ==> h.late) && (r.Blocked? ==> OutOfSight(h.Seen()))
  {
    match call
    case CallN(count, timeout) =>
      r, taken := h.ReadN(count, timeout);
    case CallUpto(term, timeout) =>
      r, taken := h.ReadUpto(term, timeout);
  }

  /** Any sequence of blocking reads, with any arrivals and timeouts in
      between: the stream is what the calls returned or dropped, in the order
      of the calls, and then what is unread or yet to come; and every part is
      what its call was for, however the bytes were cut. */
  method RunSession(h: SerialHelper, calls: seq<Call>) returns (results: seq<ReadResult>, ghost parts: seq<seq<byte>>)
    requires h.Valid() && h.state == Started
    modifies h`eventFlag, h`line, h`due, h`late, h.buffer
    ensures h.Valid() && old(h.Stream()) == Flatten(parts) + h.Stream()
    ensures Answered(calls, results, parts)
    ensures |results| < |calls| ==> results != [] && results[|results| - 1].Blocked? && OutOfSight(h.Seen())
  {
    results, parts := [], [];
    ghost var stream := h.Stream();
    Unit(stream);
    while |results| < |calls|
      invariant h.Valid() && h.state == Started && Answered(calls, results, parts)
      invariant stream == Flatten(parts) + h.Stream()
      decreases |calls| - |results|
    {
      var r;
      ghost var taken;
      r, taken := Answer(h, calls[|results|]);
      FlattenAdd(parts, taken);
      AnsweredOn(calls, results, parts, r, taken);
      Assoc(Flatten(parts), taken, h.Stream());
      results, parts := results + [r], parts + [taken];
      if r.Blocked? {
        return;
      }
    }
  }
}
