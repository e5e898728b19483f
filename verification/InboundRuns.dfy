/** Whole runs of the receiving side: the socket reader appends chunks cut
    anywhere, the worker calls `decapsulate` whenever the FIFO is not empty. */
module InboundRuns {
  import opened Bytes
  import opened Wire

  datatype Event =
    | Arrive(chunk: seq<byte>)
    | Turn  // one pass of the worker: `if (DataAvaillable()) decapsulate();`

  datatype Inbox =
    | Inbox(fifo: seq<byte>, forwarded: seq<Short>)
    | Crashed  // a call ran past the end of the FIFO

  function Step(e: Event, st: Inbox): Inbox
    requires st.Inbox?
  {
    match e
    case Arrive(chunk) => st.(fifo := st.fifo + chunk)
    case Turn =>
      if st.fifo == [] then st else
      match SweepOf(st.fifo)
      case Fault => Crashed
      case Swept(used, ms) => Inbox(st.fifo[used..], st.forwarded + ms)
  }

  function Run(es: seq<Event>, st: Inbox): Inbox {
    if es == [] || st.Crashed? then st else Run(es[1..], Step(es[0], st))
  }

  function Arrivals(es: seq<Event>): seq<byte> {
    if es == [] then []
    else (if es[0].Arrive? then es[0].chunk else []) + Arrivals(es[1..])
  }

  lemma {:induction false} PrefixOfConcat(v: seq<byte>, a: seq<byte>, b: seq<byte>)
    requires v <= a + b
    ensures |v| < |a| ==> v < a
    ensures |v| >= |a| ==> v == a + v[|a|..] && v[|a|..] <= b
  {
    if |v| >= |a| {
      assert v[..|a|] == (a + b)[..|a|] == a;
      assert v[|a|..] == (a + b)[|a|..|v|] == b[..|v| - |a|];
    } else {
      assert v == (a + b)[..|v|] == a[..|v|];
    }
  }

  lemma {:induction false} StreamSplit(ms: seq<Short>, n: nat)
    requires n <= |ms|
    ensures Stream(ms) == Stream(ms[..n]) + Stream(ms[n..])
  {
    assert ms == ms[..n] + ms[n..];
    StreamAppend(ms[..n], ms[n..]);
  }

  lemma {:induction false} StreamCons(m: Short, ms: seq<Short>)
    ensures Stream([m] + ms) == Frame(m) + Stream(ms)
  {
    assert ([m] + ms)[1..] == ms;
  }

  /** How many frames lie whole within the first n bytes of the stream. */
  function Whole(ms: seq<Short>, n: nat): (j: nat)
    ensures j <= |ms|
  {
    if ms == [] || |Frame(ms[0])| > n then 0 else 1 + Whole(ms[1..], n - |Frame(ms[0])|)
  }

  /** Any prefix of a stream is some whole frames and the beginning of one. */
  lemma {:induction false} SplitPrefix(v: seq<byte>, ms: seq<Short>) returns (j: nat, tail: seq<byte>, next: Short)
    requires v <= Stream(ms)
    ensures j == Whole(ms, |v|) && v == Stream(ms[..j]) + tail && tail < Frame(next)
    decreases ms
  {
    if ms == [] {
      j, tail, next := 0, [], Message(0, []);
    } else {
      var f := Frame(ms[0]);
      PrefixOfConcat(v, f, Stream(ms[1..]));
      if |v| < |f| {
        j, tail, next := 0, v, ms[0];
      } else {
        var i;
        i, tail, next := SplitPrefix(v[|f|..], ms[1..]);
        j := i + 1;
        assert ms[..j] == [ms[0]] + ms[1..][..i];
        StreamCons(ms[0], ms[1..][..i]);
      }
    }
  }

  /** Of the first `have` bytes of the stream: there is a whole frame, and the
      whole ones reach 96 bytes or no more than a magic number follows them. */
  ghost predicate EnoughThere(ms: seq<Short>, have: nat) {
    var whole := |Stream(ms[..Whole(ms, have)])|;
    Whole(ms, have) >= 1 && (whole >= 96 || have <= whole + 4)
  }

  /** How many frames a call then uses. */
  function Used(ms: seq<Short>, have: nat): (n: nat)
    ensures n <= Whole(ms, have)
  {
    Cut(0, ms[..Whole(ms, have)])
  }

  /** A call on a prefix of a stream stays within bounds exactly when there is
      enough, which depends on the lengths only. Then it uses whole frames, at
      least one of them. */
  lemma {:induction false} TurnUsesFrames(v: seq<byte>, ms: seq<Short>)
    requires v <= Stream(ms)
    ensures SweepOf(v).Swept? <==> EnoughThere(ms, |v|)
    ensures SweepOf(v).Swept? ==>
      var n := Used(ms, |v|);
      && 1 <= n <= |ms| && SweepOf(v) == Swept(|Stream(ms[..n])|, ms[..n])
      && |Stream(ms[..n])| <= |v| && v == Stream(ms[..n]) + v[|Stream(ms[..n])|..]
  {
    var j, tail, next := SplitPrefix(v, ms);
    var whole := ms[..j];
    SweepOfFrames(v, whole, tail, next);
    if SweepOf(v).Swept? {
      var n := Cut(0, whole);
      assert whole[..n] == ms[..n];
      StreamSplit(whole, n);
      Assoc(Stream(ms[..n]), Stream(whole[n..]), tail);
      PrefixOfConcat(v, Stream(ms[..n]), Stream(whole[n..]) + tail);
    }
  }

  /** What a run that stays within bounds has made of the bytes `all`. */
  ghost predicate InOrder(end: Inbox, all: seq<byte>, done: seq<Short>, ms: seq<Short>) {
    end.Inbox? ==>
      exists j :: 0 <= j <= |ms| && end.forwarded == done + ms[..j] && all == Stream(ms[..j]) + end.fifo
  }

  lemma {:induction false} InOrderAfter(end: Inbox, n: nat, all: seq<byte>, done: seq<Short>, ms: seq<Short>)
    requires n <= |ms| && |Stream(ms[..n])| <= |all| && all == Stream(ms[..n]) + all[|Stream(ms[..n])|..]
    requires InOrder(end, all[|Stream(ms[..n])|..], done + ms[..n], ms[n..])
    ensures InOrder(end, all, done, ms)
  {
    if end.Inbox? {
      var first, rest, left := ms[..n], ms[n..], all[|Stream(ms[..n])|..];
      var i :| 0 <= i <= |rest| && end.forwarded == done + first + rest[..i] && left == Stream(rest[..i]) + end.fifo;
      assert ms[..n + i] == first + rest[..i];
      StreamAppend(first, rest[..i]);
      Assoc(Stream(first), Stream(rest[..i]), end.fifo);
      Assoc(done, first, rest[..i]);
    }
  }

  lemma {:induction false} TurnLeaves(fifo: seq<byte>, later: seq<byte>, ms: seq<Short>, n: nat)
    requires fifo + later <= Stream(ms) && n <= |ms|
    requires |Stream(ms[..n])| <= |fifo| && fifo == Stream(ms[..n]) + fifo[|Stream(ms[..n])|..]
    ensures var left := fifo[|Stream(ms[..n])|..];
      && left + later <= Stream(ms[n..])
      && fifo + later == Stream(ms[..n]) + (left + later)
      && (fifo + later)[|Stream(ms[..n])|..] == left + later
  {
    var first, left := Stream(ms[..n]), fifo[|Stream(ms[..n])|..];
    StreamSplit(ms, n);
    Assoc(first, left, later);
    DropPrefix(first, left + later);
    PrefixOfConcat(fifo + later, first, Stream(ms[n..]));
  }

  /** The condition for a whole run, on the lengths of the chunks and the
      places of the calls: every call that finds anything finds enough. */
  ghost predicate OnTime(es: seq<Event>, have: nat, ms: seq<Short>)
    decreases es
  {
    es != [] ==>
      match es[0]
      case Arrive(chunk) => OnTime(es[1..], have + |chunk|, ms)
      case Turn =>
        if have == 0 then OnTime(es[1..], have, ms)
        else
          var n := Used(ms, have);
          EnoughThere(ms, have) && |Stream(ms[..n])| <= have && OnTime(es[1..], have - |Stream(ms[..n])|, ms[n..])
  }

  /** However the client's stream is cut into chunks and however the worker's
      calls fall between them: the run stays within bounds if and only if every
      call finds enough. Then it has forwarded a prefix of the messages sent, and
      what is left in the FIFO is exactly the rest of what has arrived. */
  lemma {:induction false} RunForwardsInOrder(es: seq<Event>, fifo: seq<byte>, done: seq<Short>, ms: seq<Short>)
    requires fifo + Arrivals(es) <= Stream(ms)
    ensures Run(es, Inbox(fifo, done)).Inbox? <==> OnTime(es, |fifo|, ms)
    ensures InOrder(Run(es, Inbox(fifo, done)), fifo + Arrivals(es), done, ms)
    decreases es
  {
    var all := fifo + Arrivals(es);
    if es == [] {
      assert ms[..0] == [];
      assert done == done + ms[..0] && all == Stream(ms[..0]) + fifo;
    } else if es[0].Arrive? {
      Assoc(fifo, es[0].chunk, Arrivals(es[1..]));
      RunForwardsInOrder(es[1..], fifo + es[0].chunk, done, ms);
    } else if fifo == [] {
      assert Arrivals(es) == Arrivals(es[1..]);
      RunForwardsInOrder(es[1..], fifo, done, ms);
    } else {
      PrefixOfPrefix(fifo, Arrivals(es), Stream(ms));
      TurnUsesFrames(fifo, ms);
      if SweepOf(fifo).Swept? {
        var n := Used(ms, |fifo|);
        var left := fifo[|Stream(ms[..n])|..];
        assert Arrivals(es) == Arrivals(es[1..]);
        TurnLeaves(fifo, Arrivals(es), ms, n);
        RunForwardsInOrder(es[1..], left, done + ms[..n], ms[n..]);
        InOrderAfter(Run(es, Inbox(fifo, done)), n, all, done, ms);
      } else {
        assert Run(es[1..], Crashed) == Crashed;
      }
    }
  }

  function Turns(k: nat): seq<Event> {
    if k == 0 then [] else [Turn] + Turns(k - 1)
  }

  lemma {:induction false} GarbageTurn(g: seq<byte>, rest: seq<byte>, done: seq<Short>)
    requires |g| == 4 && !MagicAt(g, 0)
    ensures Step(Turn, Inbox(g + rest, done)) == Inbox(rest, done)
  {
    GarbageSkipped(g + rest);
    DropPrefix(g, rest);
    Unit(done);
  }

  /** Bytes of which no aligned four are a magic number are passed over, four in
      every call, and nothing is forwarded. */
  lemma {:induction false} GarbagePassed(gs: seq<seq<byte>>, rest: seq<byte>, done: seq<Short>)
    requires forall g <- gs :: |g| == 4 && !MagicAt(g, 0)
    ensures Run(Turns(|gs|), Inbox(Joined(gs) + rest, done)) == Inbox(rest, done)
    decreases gs
  {
    if gs == [] {
      Unit(rest);
    } else {
      assert gs[0] in gs && forall g <- gs[1..] :: g in gs;
      Assoc(gs[0], Joined(gs[1..]), rest);
      GarbageTurn(gs[0], Joined(gs[1..]) + rest, done);
      GarbagePassed(gs[1..], rest, done);
      assert Turns(|gs|)[0] == Turn && Turns(|gs|)[1..] == Turns(|gs| - 1);
    }
  }

  function Joined(gs: seq<seq<byte>>): seq<byte> {
    if gs == [] then [] else gs[0] + Joined(gs[1..])
  }

  /** A run whose chunks hold whole frames. */
  ghost predicate WholeChunks(es: seq<Event>) {
    forall e <- es :: e.Arrive? ==> exists ms :: e.chunk == Stream(ms)
  }

  /** One event of such a run. */
  lemma {:induction false} WholeChunksStep(e: Event, waiting: seq<Short>, done: seq<Short>)
      returns (first: seq<Short>, waiting': seq<Short>, done': seq<Short>)
    requires e.Arrive? ==> exists ms :: e.chunk == Stream(ms)
    ensures Stream(first) == if e.Arrive? then e.chunk else []
    ensures Step(e, Inbox(Stream(waiting), done)) == Inbox(Stream(waiting'), done')
    ensures done + waiting + first == done' + waiting'
  {
    if e.Arrive? {
      first :| e.chunk == Stream(first);
      waiting', done' := waiting + first, done;
      StreamAppend(waiting, first);
      Assoc(done, waiting, first);
    } else {
      first := [];
      assert done + waiting + first == done + waiting;
      waiting', done' := TurnOnWholeFrames(waiting, done);
    }
  }

  /** What a call makes of a FIFO of whole frames. */
  lemma {:induction false} WholeFramesTurn(left: seq<Short>) returns (n: nat)
    requires Stream(left) != []
    ensures 1 <= n <= |left| && left == left[..n] + left[n..]
    ensures SweepOf(Stream(left)) == Swept(|Stream(left[..n])|, left[..n])
    ensures |Stream(left[..n])| <= |Stream(left)| && Stream(left)[|Stream(left[..n])|..] == Stream(left[n..])
  {
    n := Cut(0, left);
    WholeFrames(left);
    StreamHalves(left, n);
  }

  lemma {:induction false} StreamHalves(ms: seq<Short>, n: nat)
    requires n <= |ms|
    ensures ms == ms[..n] + ms[n..]
    ensures |Stream(ms)| == |Stream(ms[..n])| + |Stream(ms[n..])|
    ensures Stream(ms)[|Stream(ms[..n])|..] == Stream(ms[n..])
  {
    StreamSplit(ms, n);
    DropPrefix(Stream(ms[..n]), Stream(ms[n..]));
  }

  lemma {:induction false} TurnOnWholeFrames(waiting: seq<Short>, done: seq<Short>)
      returns (waiting': seq<Short>, done': seq<Short>)
    ensures Step(Turn, Inbox(Stream(waiting), done)) == Inbox(Stream(waiting'), done')
    ensures done + waiting == done' + waiting'
  {
    waiting', done' := waiting, done;
    if Stream(waiting) != [] {
      var n := WholeFramesTurn(waiting);
      waiting', done' := waiting[n..], done + waiting[..n];
      Assoc(done, waiting[..n], waiting[n..]);
    }
  }

  /** Such a run never leaves the bounds of the FIFO, forwards everything in
      order and, between calls, holds whole frames: the messages sent are the
      ones forwarded and then the ones still in the FIFO. */
  lemma {:induction false} WholeChunksRun(es: seq<Event>, waiting: seq<Short>, done: seq<Short>)
      returns (sent: seq<Short>, waiting': seq<Short>, done': seq<Short>)
    requires WholeChunks(es)
    ensures Arrivals(es) == Stream(sent)
    ensures Run(es, Inbox(Stream(waiting), done)) == Inbox(Stream(waiting'), done')
    ensures done + waiting + sent == done' + waiting'
    decreases es
  {
    if es == [] {
      sent, waiting', done' := [], waiting, done;
      Unit(done + waiting);
    } else {
      var first, waiting1, done1 := WholeChunksStep(es[0], waiting, done);
      var later;
      later, waiting', done' := WholeChunksRun(es[1..], waiting1, done1);
      sent := first + later;
      StreamAppend(first, later);
      Assoc(done + waiting, first, later);
    }
  }
}
