/** What the client gets when there are silences: half a second without a byte
    ends a call of `get_cmd` and throws away what the call has read. */
module Silences {
  import opened Bytes
  import opened Wire
  import opened ServerFrames
  import opened Client
  import opened ClientRoundTrip

  function Spoken(bs: seq<byte>): (es: seq<Event>)
    ensures |es| == |bs| && forall i :: 0 <= i < |bs| ==> es[i] == Incoming(bs[i])
  {
    seq(|bs|, i requires 0 <= i < |bs| => Incoming(bs[i]))
  }

  // ----- successive calls -----

  /** A call on these events returns c after the bytes bs. */
  ghost predicate Returns(es: seq<Event>, bs: seq<byte>, p: nat, c: Command) {
    Heard(es, bs) && bs != [] && Answers(bs, p, |bs|, c)
  }

  /** A call gives up at the silence behind bs. */
  ghost predicate GivesUp(es: seq<Event>, bs: seq<byte>) {
    Heard(es, bs) && |bs| < |es| && es[|bs|] == Quiet && NoAnswer(bs)
  }

  /** A call gives up when there is nothing more to be heard. */
  ghost predicate AllHeard(es: seq<Event>) {
    exists bs :: Heard(es, bs) && |bs| == |es| && NoAnswer(bs)
  }

  /** Successive calls on these events return the commands `cs` and no others,
      with any number of timeouts between them. */
  ghost predicate Dialogue(es: seq<Event>, cs: seq<Command>)
    decreases |es|
  {
    || (cs == [] && AllHeard(es))
    || (cs != [] && exists bs, p: nat :: Returns(es, bs, p, cs[0]) && Dialogue(es[|bs|..], cs[1..]))
    || (exists bs :: GivesUp(es, bs) && Dialogue(es[|bs| + 1..], cs))
  }

  // ----- frames with silences in them -----

  /** The bytes of a frame with a silence between any two segments. */
  datatype Utterance = Utterance(frame: OutFrame, segments: seq<seq<byte>>) {
    ghost predicate Valid() {
      Clean(frame) && segments != [] && Joined(segments) == frame.Encoded()
    }
  }

  function Joined(segments: seq<seq<byte>>): seq<byte> {
    if segments == [] then [] else segments[0] + Joined(segments[1..])
  }

  function Events(segments: seq<seq<byte>>): seq<Event>
    requires segments != []
  {
    if |segments| == 1 then Spoken(segments[0]) else Spoken(segments[0]) + ([Quiet] + Events(segments[1..]))
  }

  ghost predicate AllValid(us: seq<Utterance>) {
    forall u <- us :: u.Valid()
  }

  ghost function AllEvents(us: seq<Utterance>): seq<Event>
    requires AllValid(us)
  {
    if us == [] then [] else
    assert us[0] in us;
    Events(us[0].segments) + AllEvents(us[1..])
  }

  /** No silence between the first byte and the n-th. */
  predicate Unbroken(segments: seq<seq<byte>>, n: nat) {
    segments != [] && (|segments[0]| >= n || (segments[0] == [] && Unbroken(segments[1..], n)))
  }

  /** The frames whose header and payload no silence interrupts. */
  ghost function ComeBack(us: seq<Utterance>): seq<Command>
    requires AllValid(us)
  {
    if us == [] then [] else
    assert us[0] in us;
    (if Unbroken(us[0].segments, 7 + us[0].frame.packet.size) then [Meant(us[0].frame)] else []) + ComeBack(us[1..])
  }

  // ----- single calls -----

  lemma {:induction false} SpokenHeard(bs: seq<byte>, es: seq<Event>)
    ensures Heard(Spoken(bs) + es, bs) && (Spoken(bs) + es)[|bs|..] == es
  {}

  lemma {:induction false} SpokenTogether(a: seq<byte>, b: seq<byte>, es: seq<Event>)
    ensures Spoken(a) + (Spoken(b) + es) == Spoken(a + b) + es
  {}

  lemma {:induction false} TimeoutPasses(bs: seq<byte>, es: seq<Event>, cs: seq<Command>)
    requires NoAnswer(bs) && Dialogue(es, cs)
    ensures Dialogue(Spoken(bs) + ([Quiet] + es), cs)
  {
    var all := Spoken(bs) + ([Quiet] + es);
    SpokenHeard(bs, [Quiet] + es);
    assert all[|bs|] == Quiet && all[|bs| + 1..] == es;
    assert GivesUp(all, bs);
  }

  lemma {:induction false} ReplyComes(bs: seq<byte>, p: nat, c: Command, es: seq<Event>, cs: seq<Command>)
    requires Answers(bs, p, |bs|, c) && Dialogue(es, cs)
    ensures Dialogue(Spoken(bs) + es, [c] + cs)
  {
    var all := Spoken(bs) + es;
    SpokenHeard(bs, es);
    assert ([c] + cs)[1..] == cs;
    assert Returns(all, bs, p, ([c] + cs)[0]);
  }

  lemma {:induction false} MagicFreeUnanswered(bs: seq<byte>)
    requires MagicFree(bs)
    ensures NoAnswer(bs)
  {}

  // ----- parts of a frame -----

  lemma {:induction false} RestFree(f: OutFrame, k: nat)
    requires Clean(f) && 1 <= k <= |f.Encoded()|
    ensures MagicFree(f.Encoded()[k..])
  {
    var e := f.Encoded();
    forall q
      ensures !MagicStarts(e[k..], q)
    {
      if MagicStarts(e[k..], q) {
        Deeper(e, k, q);
        MagicInEncoded(f, q + k);
      }
    }
  }

  lemma {:induction false} Deeper(e: seq<byte>, k: nat, q: int)
    requires k <= |e|
    ensures MagicStarts(e[k..], q) ==> q >= 0 && MagicStarts(e, q + k)
  {}

  lemma {:induction false} MagicInEncoded(f: OutFrame, q: int)
    requires f.Valid()
    ensures MagicStarts(f.Encoded(), q) <==> q == 0 || MagicStarts(f.Body(), q - 4)
  {
    Unit(f.Encoded());
    MagicInFrame(f, [], q);
  }

  lemma {:induction false} SegmentsFree(segments: seq<seq<byte>>)
    requires MagicFree(Joined(segments))
    ensures forall k :: 0 <= k < |segments| ==> MagicFree(segments[k])
  {
    if segments != [] {
      MagicFreeParts(segments[0], Joined(segments[1..]));
      SegmentsFree(segments[1..]);
    }
  }

  /** A frame whose core has come in is answered. */
  lemma {:induction false} CoreAnswered(junk: seq<byte>, f: OutFrame)
    requires Clean(f) && MagicFree(junk)
    ensures var bs := junk + f.Encoded()[..7 + f.packet.size];
      Answers(bs, |junk|, |bs|, Meant(f))
  {
    var e, n := f.Encoded(), 7 + f.packet.size;
    WholeAnswered(junk, f);
    SplitAt(e, n);
    Assoc(junk, e[..n], e[n..]);
    AnswersOfLonger(junk + e[..n], e[n..], |junk|, |junk| + n, Meant(f));
  }

  lemma {:induction false} WholeAnswered(junk: seq<byte>, f: OutFrame)
    requires Clean(f) && MagicFree(junk)
    ensures Answers(junk + f.Encoded(), |junk|, |junk| + 7 + f.packet.size, Meant(f))
  {
    CleanParts(f);
    Unit(junk + f.Encoded());
    FrameIntact(junk + f.Encoded(), junk, f, []);
  }

  /** Before that there is no answer. */
  lemma {:induction false} PartUnanswered(junk: seq<byte>, f: OutFrame, k: nat)
    requires Clean(f) && MagicFree(junk) && k < 7 + f.packet.size
    ensures NoAnswer(junk + f.Encoded()[..k])
  {
    WholeAnswered(junk, f);
    NotYetPart(junk, f.Encoded(), k, 7 + f.packet.size, Meant(f));
  }

  lemma {:induction false} NotYetPart(junk: seq<byte>, e: seq<byte>, k: nat, n: nat, c: Command)
    requires Answers(junk + e, |junk|, |junk| + n, c) && k < n && k <= |e|
    ensures NoAnswer(junk + e[..k])
  {
    SplitAt(e, k);
    Assoc(junk, e[..k], e[k..]);
    NotYet(junk + e[..k], e[k..], |junk|, |junk| + n, c);
  }

  lemma {:induction false} NotYet(bs: seq<byte>, more: seq<byte>, p: nat, n: nat, c: Command)
    requires Answers(bs + more, p, n, c) && |bs| < n
    ensures NoAnswer(bs)
  {
    forall p': nat, n': nat, c'
      ensures !Answers(bs, p', n', c')
    {
      if Answers(bs, p', n', c') {
        AnswersOfLonger(bs, more, p', n', c');
        AnswersUnique(bs + more, p', n', c', p, n, c);
      }
    }
  }

  // ----- the theorem -----

  /** Whatever magic-free bytes a call has read before, the calls on these
      events return those commands. */
  ghost predicate Continues(es: seq<Event>, cs: seq<Command>) {
    forall junk :: MagicFree(junk) ==> Dialogue(Spoken(junk) + es, cs)
  }

  /** What is left of a frame is passed over. */
  lemma {:induction false} RestPasses(segments: seq<seq<byte>>, es: seq<Event>, cs: seq<Command>)
    requires segments != [] && Continues(es, cs)
    requires forall k :: 0 <= k < |segments| ==> MagicFree(segments[k])
    ensures Dialogue(Events(segments) + es, cs)
    decreases |segments|
  {
    if |segments| > 1 {
      var rest := segments[1..];
      RestPasses(rest, es, cs);
      MagicFreeUnanswered(segments[0]);
      TimeoutPasses(segments[0], Events(rest) + es, cs);
      Assoc(Spoken(segments[0]), [Quiet] + Events(rest), es);
      Assoc([Quiet], Events(rest), es);
    }
  }

  /** One frame with its silences. */
  lemma {:induction false} FramePasses(junk: seq<byte>, f: OutFrame, segments: seq<seq<byte>>, es: seq<Event>,
                                       cs: seq<Command>)
    requires MagicFree(junk) && Utterance(f, segments).Valid() && Continues(es, cs)
    ensures Dialogue(Spoken(junk) + (Events(segments) + es),
                     (if Unbroken(segments, 7 + f.packet.size) then [Meant(f)] else []) + cs)
    decreases |segments|
  {
    var n, first := 7 + f.packet.size, segments[0];
    if |segments| > 1 {
      EventsSplit(junk, segments, es);
    }
    if first == [] {
      assert Joined(segments) == Joined(segments[1..]);
      FramePasses([], f, segments[1..], es, cs);
      MagicFreeUnanswered(junk);
      var rest := Events(segments[1..]) + es;
      Unit(rest);
      assert Spoken([]) + rest == rest;
      Unit(junk);
      TimeoutPasses(junk, rest, if Unbroken(segments, n) then [Meant(f)] + cs else [] + cs);
    } else if |first| >= n {
      CoreThenRest(junk, f, segments, es, cs);
    } else {
      BrokenCore(junk, f, segments, es, cs);
    }
  }

  lemma {:induction false} EventsSplit(junk: seq<byte>, segments: seq<seq<byte>>, es: seq<Event>)
    requires |segments| > 1
    ensures Spoken(junk) + (Events(segments) + es) ==
            Spoken(junk + segments[0]) + ([Quiet] + (Events(segments[1..]) + es))
  {
    var rest := Events(segments[1..]);
    Assoc(Spoken(segments[0]), [Quiet] + rest, es);
    Assoc([Quiet], rest, es);
    SpokenTogether(junk, segments[0], [Quiet] + (rest + es));
  }

  lemma {:induction false} BrokenCore(junk: seq<byte>, f: OutFrame, segments: seq<seq<byte>>, es: seq<Event>,
                                      cs: seq<Command>)
    requires MagicFree(junk) && Utterance(f, segments).Valid() && Continues(es, cs)
    requires 0 < |segments[0]| < 7 + f.packet.size
    ensures Dialogue(Spoken(junk) + (Events(segments) + es), [] + cs)
  {
    var first, rest := segments[0], segments[1..];
    var e, k := f.Encoded(), |first|;
    assert e == first + Joined(rest);
    DropPrefix(first, Joined(rest));
    PartUnanswered(junk, f, k);
    RestFree(f, k);
    SegmentsFree(rest);
    if rest == [] {
      assert false;
    }
    RestPasses(rest, es, cs);
    EventsSplit(junk, segments, es);
    TimeoutPasses(junk + first, Events(rest) + es, cs);
    Unit(cs);
  }

  lemma {:induction false} CoreThenRest(junk: seq<byte>, f: OutFrame, segments: seq<seq<byte>>, es: seq<Event>,
                                        cs: seq<Command>)
    requires MagicFree(junk) && Utterance(f, segments).Valid() && Continues(es, cs)
    requires |segments[0]| >= 7 + f.packet.size
    ensures Dialogue(Spoken(junk) + (Events(segments) + es), [Meant(f)] + cs)
  {
    var first, n := segments[0], 7 + f.packet.size;
    var core, pad := first[..n], first[n..];
    var left := [pad] + segments[1..];
    var e := f.Encoded();
    assert e == first + Joined(segments[1..]);
    assert e[..n] == core;
    SplitAt(first, n);
    Assoc(core, pad, Joined(segments[1..]));
    DropPrefix(core, pad + Joined(segments[1..]));
    assert left[1..] == segments[1..];
    assert e[n..] == Joined(left);
    RestFree(f, n);
    SegmentsFree(left);
    RestPasses(left, es, cs);
    CoreAnswered(junk, f);
    ReplyComes(junk + core, |junk|, Meant(f), Events(left) + es, cs);
    CoreCut(core, pad, segments, left);
    Assoc(Spoken(core), Events(left), es);
    SpokenTogether(junk, core, Events(left) + es);
  }

  lemma {:induction false} CoreCut(core: seq<byte>, pad: seq<byte>, segments: seq<seq<byte>>, left: seq<seq<byte>>)
    requires segments != [] && segments[0] == core + pad && left == [pad] + segments[1..]
    ensures Events(segments) == Spoken(core) + Events(left)
  {
    assert left[1..] == segments[1..];
    if |segments| > 1 {
      SpokenTogether(core, pad, [Quiet] + Events(segments[1..]));
    } else {
      Unit(Spoken(core + pad));
      Unit(Spoken(pad));
      SpokenTogether(core, pad, []);
    }
  }

  /** With silences anywhere in a stream of clean frames: successive calls
      return exactly the frames of which no silence interrupts header and
      payload, each with its own type, size and data, in order. */
  lemma {:induction false} RoundTripWithSilences(junk: seq<byte>, us: seq<Utterance>)
    requires AllValid(us) && MagicFree(junk)
    ensures Dialogue(Spoken(junk) + AllEvents(us), ComeBack(us))
    decreases |us|, 1
  {
    if us == [] {
      NoFrames(junk);
    } else {
      LaterFrames(us);
      FirstFrame(junk, us);
    }
  }

  lemma {:induction false} NoFrames(junk: seq<byte>)
    requires MagicFree(junk)
    ensures Dialogue(Spoken(junk) + [], [])
  {
    MagicFreeUnanswered(junk);
    SpokenHeard(junk, []);
    Unit(Spoken(junk));
    assert AllHeard(Spoken(junk));
  }

  lemma {:induction false} FirstFrame(junk: seq<byte>, us: seq<Utterance>)
    requires us != [] && AllValid(us) && MagicFree(junk)
    requires Continues(AllEvents(us[1..]), ComeBack(us[1..]))
    ensures Dialogue(Spoken(junk) + AllEvents(us), ComeBack(us))
  {
    var u, later := us[0], us[1..];
    assert u in us;
    UtterancePasses(junk, u, AllEvents(later), ComeBack(later), AllEvents(us), ComeBack(us));
  }

  lemma {:induction false} UtterancePasses(junk: seq<byte>, u: Utterance, es: seq<Event>, cs: seq<Command>,
                                           all: seq<Event>, replies: seq<Command>)
    requires MagicFree(junk) && u.Valid() && Continues(es, cs)
    requires all == Events(u.segments) + es
    requires replies == (if Unbroken(u.segments, 7 + u.frame.packet.size) then [Meant(u.frame)] else []) + cs
    ensures Dialogue(Spoken(junk) + all, replies)
  {
    FramePasses(junk, u.frame, u.segments, es, cs);
  }

  lemma {:induction false} LaterFrames(us: seq<Utterance>)
    requires us != [] && AllValid(us)
    ensures Continues(AllEvents(us[1..]), ComeBack(us[1..]))
    decreases |us|, 0
  {
    forall junk | MagicFree(junk)
      ensures Dialogue(Spoken(junk) + AllEvents(us[1..]), ComeBack(us[1..]))
    {
      RoundTripWithSilences(junk, us[1..]);
    }
  }

  // ----- the client's calls -----

  lemma {:induction false} SameBeginning(es: seq<Event>, a: seq<byte>, b: seq<byte>)
    requires Heard(es, a) && Heard(es, b) && |a| <= |b|
    ensures b == a + b[|a|..]
  {
    assert forall i :: 0 <= i < |a| ==> Incoming(a[i]) == Incoming(b[i]);
  }

  /** Bytes that are answered are not followed by bytes that are not. */
  lemma {:induction false} AnswerStays(es: seq<Event>, a: seq<byte>, p: nat, n: nat, c: Command, b: seq<byte>)
    requires Heard(es, a) && Heard(es, b) && |a| <= |b| && n <= |a| && Answers(a, p, n, c)
    ensures Answers(b, p, n, c)
  {
    SameBeginning(es, a, b);
    AnswersOfLonger(a, b[|a|..], p, n, c);
  }

  lemma {:induction false} NextReply(es: seq<Event>, cs: seq<Command>, bs: seq<byte>, p: nat, c: Command)
    requires Dialogue(es, cs) && Returns(es, bs, p, c)
    ensures cs != [] && c == cs[0] && Dialogue(es[|bs|..], cs[1..])
  {
    if bs' :| GivesUp(es, bs') && Dialogue(es[|bs'| + 1..], cs) {
      AnswerStays(es, bs, p, |bs|, c, bs');
    } else if cs == [] {
      var bs' :| Heard(es, bs') && |bs'| == |es| && NoAnswer(bs');
      AnswerStays(es, bs, p, |bs|, c, bs');
    } else {
      var bs', p': nat :| Returns(es, bs', p', cs[0]) && Dialogue(es[|bs'|..], cs[1..]);
      if |bs| <= |bs'| {
        AnswerStays(es, bs, p, |bs|, c, bs');
        AnswersUnique(bs', p, |bs|, c, p', |bs'|, cs[0]);
      } else {
        AnswerStays(es, bs', p', |bs'|, cs[0], bs);
        AnswersUnique(bs, p, |bs|, c, p', |bs'|, cs[0]);
      }
    }
  }

  lemma {:induction false} NextTimeout(es: seq<Event>, cs: seq<Command>, bs: seq<byte>)
    requires Dialogue(es, cs) && GivesUp(es, bs)
    ensures Dialogue(es[|bs| + 1..], cs)
  {
    NotAllHeard(es, bs);
    if cs != [] {
      NoReply(es, bs, cs[0]);
    }
    var bs' :| GivesUp(es, bs') && Dialogue(es[|bs'| + 1..], cs);
    QuietEnds(es, bs, bs');
    QuietEnds(es, bs', bs);
  }

  /** No call can go on beyond the silence, or return before it. */
  lemma {:induction false} NotAllHeard(es: seq<Event>, bs: seq<byte>)
    requires GivesUp(es, bs)
    ensures !AllHeard(es)
  {
    if bs' :| Heard(es, bs') && |bs'| == |es| && NoAnswer(bs') {
      QuietEnds(es, bs, bs');
    }
  }

  lemma {:induction false} NoReply(es: seq<Event>, bs: seq<byte>, c: Command)
    requires GivesUp(es, bs)
    ensures forall bs', p: nat :: !Returns(es, bs', p, c)
  {
    forall bs', p: nat
      ensures !Returns(es, bs', p, c)
    {
      if Returns(es, bs', p, c) {
        QuietEnds(es, bs, bs');
        AnswerStays(es, bs', p, |bs'|, c, bs);
      }
    }
  }

  lemma {:induction false} QuietEnds(es: seq<Event>, bs: seq<byte>, bs': seq<byte>)
    requires |bs| < |es| && es[|bs|] == Quiet && Heard(es, bs')
    ensures |bs'| <= |bs|
  {}

  lemma {:induction false} NothingLeft(es: seq<Event>, cs: seq<Command>, bs: seq<byte>)
    requires Dialogue(es, cs) && Heard(es, bs) && |bs| == |es| && NoAnswer(bs)
    ensures cs == []
  {
    if bs', p: nat :| cs != [] && Returns(es, bs', p, cs[0]) {
      AnswerStays(es, bs', p, |bs'|, cs[0], bs);
    } else if bs' :| GivesUp(es, bs') {
      QuietEnds(es, bs', bs);
    }
  }

  /** What the contract of a call says about the dialogue. */
  lemma {:induction false} NextCall(es: seq<Event>, cs: seq<Command>, r: Reply, bs: seq<byte>, p: nat)
    requires Dialogue(es, cs) && es != [] && Heard(es, bs)
    requires r.Got? ==> Answers(bs, p, |bs|, r.cmd)
    requires r.TimedOut? ==> NoAnswer(bs) && (|bs| < |es| ==> es[|bs|] == Quiet)
    ensures r.Got? ==> cs != [] && r.cmd == cs[0] && Dialogue(es[|bs|..], cs[1..])
    ensures r.TimedOut? ==> Dialogue(if |bs| < |es| then es[|bs| + 1..] else [], cs)
  {
    if r.Got? {
      NextReply(es, cs, bs, p, r.cmd);
    } else if |bs| < |es| {
      NextTimeout(es, cs, bs);
    } else {
      NothingLeft(es, cs, bs);
      NothingMore();
    }
  }

  lemma {:induction false} OneReplied(got: seq<Command>, left: seq<Command>)
    requires left != []
    ensures (got + [left[0]]) + left[1..] == got + left
  {
    Assoc(got, [left[0]], left[1..]);
    DropStep(left, 0);
  }

  lemma {:induction false} NothingMore()
    ensures Dialogue([], [])
  {
    var none: seq<byte> := [];
    assert Heard([], none) && |none| == 0 && NoAnswer(none);
    assert AllHeard([]);
  }

  /** Calls until there is nothing more to be heard: what they return are the
      commands of the dialogue. */
  method ReceiveEverything(conn: Connection, ghost cs: seq<Command>) returns (got: seq<Command>)
    requires Dialogue(conn.socket, cs)
    modifies conn
    ensures got == cs && conn.socket == []
  {
    got := [];
    ghost var left := cs;
    Unit(cs);
    while conn.socket != []
      invariant Dialogue(conn.socket, left) && got + left == cs
      decreases |conn.socket|
    {
      ghost var es := conn.socket;
      var r;
      ghost var bs, p;
      r, bs, p := conn.GetCmd();
      NextCall(es, left, r, bs, p);
      if r.Got? {
        OneReplied(got, left);
        got, left := got + [r.cmd], left[1..];
      }
    }
    NothingLeft([], left, []);
    Unit(got);
  }
}
